/** Secret references in the chats section: resolveSecrets of internal/config/config.go with Resolve of
    internal/secret/secret.go. An id is read where it begins with "env:" or "vault:", and stays as it is
    otherwise. */
module ChatSecrets {
  import opened ChatRefs
  import opened Wrappers

  /** What the environment and Vault hold: for each reference its value, or None where there is none. */
  type Read = string -> Option<string>

  predicate IsEnv(s: string) {
    "env:" <= s
  }

  predicate IsVault(s: string) {
    "vault:" <= s
  }

  predicate IsSecret(s: string) {
    IsEnv(s) || IsVault(s)
  }

  /** A variable needs a name and a Vault path a key. */
  predicate IsReadable(s: string) {
    (IsEnv(s) ==> s != "env:") && (IsVault(s) ==> '#' in s)
  }

  /** An empty variable counts as missing. */
  function ResolveSecret(read: Read, s: string): (value: Option<string>)
    ensures !IsSecret(s) ==> value == Some(s)
    ensures value.Some? ==> IsReadable(s)
    ensures IsSecret(s) ==>
              forall v :: value == Some(v) <==> IsReadable(s) && read(s) == Some(v) && (IsEnv(s) ==> v != "")
  {
    if !IsSecret(s) then Some(s)
    else if !IsReadable(s) || (IsEnv(s) && read(s) == Some("")) then None
    else read(s)
  }

  /** Loading stops at the first id that cannot be read, wherever it is used. */
  ghost predicate Loads(read: Read, chats: Chats) {
    forall a :: a in chats && chats[a].id != "" ==> ResolveSecret(read, chats[a].id).Some?
  }

  ghost function Loaded(read: Read, chats: Chats): Chats
    requires Loads(read, chats)
  {
    map a | a in chats ::
      if chats[a].id == "" then chats[a] else chats[a].(id := ResolveSecret(read, chats[a].id).value)
  }

  lemma UuidIsNoSecret(s: string)
    requires IsUUID(s)
    ensures !IsSecret(s)
  {
    assert IsHex(s[0]) && IsHex(s[1]);
  }
}
