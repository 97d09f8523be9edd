/** The `mentions` array of a notification as the code sees it: raw JSON of which only
    `mention_id` is ever decoded, plus the entries the inline parser builds itself. */
module MentionWire {
  import opened Wrappers

  datatype MentionData = MentionData(userHuid: string, name: string)

  /** A JSON value standing in the array. `Malformed` is one that does not decode as an
      object with a string `mention_id`; an absent id decodes as "". */
  datatype RawEntry =
    | Malformed(text: string)
    | Foreign(mentionId: string, text: string)
    | Parsed(mentionId: string, mentionType: string, data: Option<MentionData>)

  /** `NoMentions` is an absent array, `Unreadable` one that is not a JSON array. */
  datatype RawMentions =
    | NoMentions
    | Unreadable(text: string)
    | Entries(entries: seq<RawEntry>)

  const PLACEHOLDER_CORE := "{mention:"

  function Placeholder(id: string): string {
    PLACEHOLDER_CORE + id + "}"
  }
}
