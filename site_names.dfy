/** The naming convention of sites and tiles, `<prefix>X<int>Y<int>`: how the instance's
    integer coordinates are read back from a site name (Instance.setPrimitiveSite) and how
    such a name is formed. */
module SiteNames {
  import opened Text

  /** A name in the convention: prefix, the `X` marker, the X value, `Y`, the Y value. */
  function CoordinateName(prefix: string, x: int, y: int): string {
    prefix + "X" + IntToString(x) + "Y" + IntToString(y)
  }

  /** The names for which both `Integer.parseInt` calls of the scan succeed syntactically:
      after the last `Y` a decimal, and, if an `X` precedes that `Y`, a decimal between them. */
  predicate SiteNameParses(name: string) {
    var yi := LastIndexOf(name, 'Y');
    yi < 0 ||
      (IsDecimal(name[yi + 1..]) &&
       var xi := LastIndexOf(name[..yi], 'X');
       xi < 0 || IsDecimal(name[xi + 1..yi]))
  }

  /** The (X, Y) pair read from a site name: -1 for a coordinate whose marker is missing. */
  function SiteCoordinates(name: string): (int, int)
  {
    var yi := LastIndexOf(name, 'Y');
    if yi < 0 then (-1, -1)
    else
      var xi := LastIndexOf(name[..yi], 'X');
      (if xi < 0 then -1 else ParseInt(name[xi + 1..yi]), ParseInt(name[yi + 1..]))
  }

  /** The names the source accepts: both numbers also fit a Java int. */
  predicate SiteNameFitsInt(name: string) {
    SiteNameParses(name) && InIntRange(SiteCoordinates(name).0) && InIntRange(SiteCoordinates(name).1)
  }

  /** The two backward scans of setPrimitiveSite: first for the last `Y`, then, from there,
      for the `X` before it. `Integer.parseInt` throws on a name outside SiteNameFitsInt;
      the callers in Instance require that property, so the scan itself is total. */
  method ScanCoordinates(name: string) returns (x: int, y: int)
    ensures (x, y) == SiteCoordinates(name)
  {
    var i := |name|;
    var end := i;
    while i > 0 && name[i - 1] != 'Y'
      invariant 0 <= i <= |name|
      invariant forall j :: i <= j < |name| ==> name[j] != 'Y'
    {
      i := i - 1;
    }
    ghost var yi := i - 1;
    LastIndexOfIs(name, 'Y', yi);
    y := if i == 0 then -1 else ParseInt(name[i..end]);
    end := i - 1;
    while i > 0 && name[i - 1] != 'X'
      invariant 0 <= i <= yi + 1
      invariant forall j :: i <= j <= yi ==> name[j] != 'X'
    {
      i := i - 1;
    }
    if yi >= 0 {
      LastIndexOfIs(name[..yi], 'X', i - 1);
      assert name[yi + 1..|name|] == name[yi + 1..];
    }
    x := if i == 0 then -1 else ParseInt(name[i..end]);
  }

  /** Reading the coordinates back from a name in the convention gives the numbers that
      were written into it, whatever the prefix holds. */
  lemma CoordinateNameRoundTrip(prefix: string, x: int, y: int)
    ensures SiteNameParses(CoordinateName(prefix, x, y))
    ensures SiteCoordinates(CoordinateName(prefix, x, y)) == (x, y)
  {
    var sx, sy := IntToString(x), IntToString(y);
    var name := CoordinateName(prefix, x, y);
    var yi := |prefix| + 1 + |sx|;
    assert LastIndexOf(name, 'Y') == yi by {
      assert name == prefix + "X" + sx + "Y" + sy;
      assert name[yi] == 'Y';
      assert forall j :: yi < j < |name| ==> name[j] == sy[j - yi - 1];
      LastIndexOfIs(name, 'Y', yi);
    }
    assert LastIndexOf(name[..yi], 'X') == |prefix| by {
      assert name[..yi] == prefix + "X" + sx;
      assert forall j :: |prefix| < j < yi ==> name[..yi][j] == sx[j - |prefix| - 1];
      LastIndexOfIs(name[..yi], 'X', |prefix|);
    }
    assert name[yi + 1..] == sy;
    assert name[|prefix| + 1..yi] == sx;
    ParseIntToString(x);
    ParseIntToString(y);
  }

  /** A name with no `Y` yields (-1, -1). */
  lemma NoYMarker(name: string)
    requires 'Y' !in name
    ensures SiteNameParses(name) && SiteCoordinates(name) == (-1, -1)
  {
    LastIndexOfIs(name, 'Y', -1);
  }

  /** A name with a `Y` but no `X` before its last `Y` yields X = -1 and the parsed Y. */
  lemma NoXMarker(prefix: string, y: int)
    requires 'X' !in prefix
    ensures SiteNameParses(prefix + "Y" + IntToString(y))
    ensures SiteCoordinates(prefix + "Y" + IntToString(y)) == (-1, y)
  {
    var sy := IntToString(y);
    var name := prefix + "Y" + sy;
    var yi := |prefix|;
    assert name[yi] == 'Y';
    assert forall j :: yi < j < |name| ==> name[j] == sy[j - yi - 1];
    LastIndexOfIs(name, 'Y', yi);
    assert name[..yi] == prefix;
    assert name[yi + 1..] == sy;
    ParseIntToString(y);
  }

  /** The documented example: `SLICE_X5Y10` gives (5, 10). */
  lemma SliceExample()
    ensures SiteNameParses("SLICE_X5Y10") && SiteCoordinates("SLICE_X5Y10") == (5, 10)
  {
    assert IntToString(5) == "5";
    assert IntToString(10) == "10";
    assert CoordinateName("SLICE_", 5, 10) == "SLICE_X5Y10";
    CoordinateNameRoundTrip("SLICE_", 5, 10);
  }
}
