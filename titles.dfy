/** The figure titles and file names that the plot functions derive from their arguments. */
module Titles {
  import opened Frame

  /** `s.replace(" ", "_")`: every space becomes an underscore and nothing else changes. */
  function SpacesToUnderscores(s: string): (r: string)
    ensures |r| == |s|
    ensures forall i :: 0 <= i < |s| ==> r[i] == (if s[i] == ' ' then '_' else s[i])
    ensures ' ' !in r
  {
    if s == [] then []
    else SpacesToUnderscores(s[..|s| - 1]) + [if s[|s| - 1] == ' ' then '_' else s[|s| - 1]]
  }

  /** A string without spaces is its own file name. */
  lemma {:induction false} NoSpacesUnchanged(s: string)
    requires ' ' !in s
    ensures SpacesToUnderscores(s) == s
  {
    if s != [] {
      NoSpacesUnchanged(s[..|s| - 1]);
      assert s == s[..|s| - 1] + [s[|s| - 1]];
    }
  }

  /** How an optional string argument prints inside an f-string: `None` prints as "None". */
  function Formatted(v: Option<string>): string {
    match v
    case None => "None"
    case Some(s) => s
  }

  /** `if not title: title = default`: an absent or empty title gives way to the default. */
  function TitleOrDefault(title: Option<string>, default: string): (r: string)
    ensures (title.None? || title.value == "") ==> r == default
    ensures (title.Some? && title.value != "") ==> r == title.value
  {
    if title.None? || title.value == "" then default else title.value
  }
}
