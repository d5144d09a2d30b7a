/**
 * The message of a release commit: the caller's message after a fixed
 * marker, built as `[prefix, msg].join(" ")`. Writing the commit itself
 * (identities, parent, tree, reference update) is not part of this model.
 */
module Commit {
  import Text

  /** The marker every release commit message starts with. */
  const Prefix: string := "[fontship]"

  /**
   * The commit message: exactly `[fontship] ` followed by the caller's
   * message, unchanged.
   */
  function Message(msg: string): (r: string)
    ensures |r| == |Prefix| + 1 + |msg|
    ensures r[..|Prefix| + 1] == "[fontship] "
    ensures r[|Prefix| + 1..] == msg
  {
    var parts := [Prefix, msg];
    assert parts[1..] == [msg] && Text.Join([msg], " ") == msg;
    assert |Prefix| == 10;
    Text.Join(parts, " ")
  }

  /** Distinct messages give distinct commit messages. */
  lemma MessageInjective(a: string, b: string)
    requires Message(a) == Message(b)
    ensures a == b
  {
  }

  lemma MessageExample()
    ensures Message("did work") == "[fontship] did work"
  {
  }
}
