/** Chat references of internal/config/config.go: a reference is a raw chat UUID or an alias of
    the chats section. */
module ChatRefs {

  datatype ChatConfig = ChatConfig(id: string, bot: string, isDefault: bool)

  /** The chats section: aliases and what they stand for. */
  type Chats = map<string, ChatConfig>

  predicate IsHex(c: char) {
    '0' <= c <= '9' || 'a' <= c <= 'f' || 'A' <= c <= 'F'
  }

  /** 8-4-4-4-12 hexadecimal digits. */
  predicate IsUUID(s: string) {
    |s| == 36 && forall i :: 0 <= i < 36 ==> if i in {8, 13, 18, 23} then s[i] == '-' else IsHex(s[i])
  }

  /** Lower case; a UUID has no other letters than these. */
  function FoldHex(c: char): char {
    if 'A' <= c <= 'F' then c + ('a' - 'A') else c
  }

  function Fold(id: string): string {
    seq(|id|, i requires 0 <= i < |id| => FoldHex(id[i]))
  }

  datatype RefError = NoAliases | UnknownAlias | NoId

  datatype Resolved = Resolved(id: string, bot: string) | Unresolved(error: RefError)

  function ResolveChatRef(chats: Chats, ref: string): Resolved {
    if IsUUID(ref) then Resolved(ref, "")
    else if ref !in chats then Unresolved(if chats == map[] then NoAliases else UnknownAlias)
    else if chats[ref].id == "" then Unresolved(NoId)
    else Resolved(chats[ref].id, chats[ref].bot)
  }
}
