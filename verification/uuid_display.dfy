/** Shortening an identifier for display: the first `maxLength` characters
    followed by "...". */
module UuidDisplay {
  import opened Wrappers

  const DefaultMaxLength: int := 8

  const Ellipsis: string := "..."

  /** Python's `s[:n]`: a negative `n` counts from the end. */
  function SlicePrefix(s: string, n: int): (r: string)
    ensures r <= s
    ensures 0 <= n <= |s| ==> |r| == n
    ensures n >= |s| ==> r == s
    ensures n < 0 ==> |r| == if |s| + n > 0 then |s| + n else 0
  {
    if n >= |s| then s
    else if n >= 0 then s[..n]
    else if |s| + n > 0 then s[..|s| + n]
    else []
  }

  /** The display form of an identifier: "" for a missing or empty one, the
      identifier itself when it is at most `maxLength` long, and otherwise
      its first `maxLength` characters followed by "...". */
  function FormatUuidDisplay(id: Option<string>, maxLength: int): (r: string)
    ensures id.None? || id.value == [] ==> r == []
    ensures id.Some? && |id.value| <= maxLength ==> r == id.value
    ensures id.Some? && |id.value| > maxLength >= 0 ==>
      && |r| == maxLength + 3
      && r[..maxLength] == id.value[..maxLength]
      && r[maxLength..] == Ellipsis
    ensures maxLength >= 0 ==> |r| <= maxLength + 3
    ensures id.Some? ==> r == id.value || (|r| >= 3 && r[..|r| - 3] <= id.value && r[|r| - 3..] == Ellipsis)
  {
    match id
    case None => []
    case Some(s) =>
      if |s| == 0 then []
      else if |s| > maxLength then
        var p := SlicePrefix(s, maxLength);
        var r := p + Ellipsis;
        assert r[..|p|] == p && r[|p|..] == Ellipsis;
        r
      else s
  }

  /** With the default length, a 36-character UUID shows as 11 characters:
      its first 8 and "...". */
  lemma DefaultShortensUuid(id: string)
    requires |id| == 36
    ensures |FormatUuidDisplay(Some(id), DefaultMaxLength)| == 11
    ensures FormatUuidDisplay(Some(id), DefaultMaxLength)[..8] == id[..8]
  {
  }

  /** Two long identifiers whose first `maxLength` characters differ keep
      different displays. */
  lemma DisplayKeepsPrefix(a: string, b: string, maxLength: int)
    requires maxLength >= 0
    requires |a| > maxLength && |b| > maxLength
    requires a[..maxLength] != b[..maxLength]
    ensures FormatUuidDisplay(Some(a), maxLength) != FormatUuidDisplay(Some(b), maxLength)
  {
    var ra := FormatUuidDisplay(Some(a), maxLength);
    var rb := FormatUuidDisplay(Some(b), maxLength);
    assert ra[..maxLength] == a[..maxLength];
    assert rb[..maxLength] == b[..maxLength];
  }
}
