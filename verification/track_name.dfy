/** The name shown for a track in the list view. */
module TrackName {

  /** Names longer than this many characters are cut. */
  const MaxShown: nat := 26

  /** What follows a cut name. */
  const Ellipsis: string := "....."

  /** The displayed name: short names as they are, longer ones cut to their
      first `MaxShown` characters followed by the ellipsis. */
  function DisplayName(name: string): (r: string)
    ensures |name| <= MaxShown ==> r == name
    ensures |name| > MaxShown ==> |r| == MaxShown + |Ellipsis|
    ensures |name| > MaxShown ==> r[..MaxShown] == name[..MaxShown] && r[MaxShown..] == Ellipsis
  {
    if |name| > MaxShown then name[..MaxShown] + Ellipsis else name
  }

  /** A displayed name is at most `MaxShown + |Ellipsis|` characters long
      and begins with the name itself or with its first `MaxShown`
      characters. */
  lemma DisplayNameBounded(name: string)
    ensures |DisplayName(name)| <= MaxShown + |Ellipsis|
    ensures name[..if |name| < MaxShown then |name| else MaxShown] <= DisplayName(name)
  {
  }

  /** The displayed name is unchanged when displayed again. */
  lemma DisplayNameIdempotent(name: string)
    ensures DisplayName(DisplayName(name)) == DisplayName(name)
  {
  }

  /** Two different long names sharing their first 26 characters are shown
      the same. */
  lemma DisplayNameMerges(a: string, b: string)
    requires |a| > MaxShown && |b| > MaxShown
    requires a[..MaxShown] == b[..MaxShown]
    ensures DisplayName(a) == DisplayName(b)
  {
  }
}
