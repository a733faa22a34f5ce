/** Small vocabulary shared by the online server and the single-device engine. */
module Common {

  /** A JavaScript value that may be absent (`null` or `undefined`). */
  datatype Option<T> = None | Some(value: T)

  /** One entry of a hint log: who gave it, their avatar, and the recorded text. */
  datatype Hint = Hint(playerName: string, avatar: string, text: string)

  /** The start of a question-mode hint: "asked" followed by a space. */
  const AskedPrefix: string := "سأل "

  /** Stand-in shown when a player has no question target: "one of the players". */
  const SomePlayer: string := "أحد اللاعبين"

  /** `askedTarget || 'أحد اللاعبين'`: JavaScript's `||` also falls back on the empty string. */
  function TargetOrFallback(target: Option<string>): (r: string)
    ensures r != ""
    ensures target.Some? && target.value != "" ==> r == target.value
    ensures target.None? || target.value == "" ==> r == SomePlayer
  {
    if target.Some? && target.value != "" then target.value else SomePlayer
  }

  /** The text both engines record for a question-mode turn: "asked <target>". */
  function QuestionText(target: Option<string>): string
  {
    AskedPrefix + TargetOrFallback(target)
  }

  /** The question-mode text names the target, so the target can be read back from it. */
  lemma QuestionTextNamesTarget(target: Option<string>)
    ensures |QuestionText(target)| > |AskedPrefix|
    ensures QuestionText(target)[..|AskedPrefix|] == AskedPrefix
    ensures QuestionText(target)[|AskedPrefix|..] == TargetOrFallback(target)
  {
  }
}
