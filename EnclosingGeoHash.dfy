/**
 * The longest geohash that encloses a whole polygon (EnclosingGeoHash.java):
 * the longest common prefix of the twelve-character hashes of its vertices.
 */
module EnclosingGeoHash {
  import opened Coords
  import opened Base32
  import opened GeoHash

  /**
   * `r` is what `longestCommonPrefix` returns for `ss`: `""` for no strings;
   * otherwise a prefix of every string that is either the whole first
   * string, or stops where some string ends or differs from the first one.
   */
  predicate IsLongestCommonPrefix(r: string, ss: seq<string>) {
    if |ss| == 0 then r == ""
    else
      (forall i :: 0 <= i < |ss| ==> r <= ss[i]) &&
      (r == ss[0] || exists i :: 0 <= i < |ss| && (|r| >= |ss[i]| || ss[i][|r|] != ss[0][|r|]))
  }

  /**
   * `longestCommonPrefix`: walks the first string's characters and returns
   * at the first position where another string ends or disagrees.
   */
  method LongestCommonPrefix(strings: array<string>) returns (r: string)
    ensures IsLongestCommonPrefix(r, strings[..])
  {
    if strings.Length == 0 {
      return "";
    }
    var first := strings[0];
    var prefixLen := 0;
    while prefixLen < |first|
      invariant 0 <= prefixLen <= |first|
      invariant forall k :: 0 <= k < strings.Length ==> first[..prefixLen] <= strings[k]
    {
      var c := first[prefixLen];
      var i := 1;
      while i < strings.Length
        invariant 1 <= i <= strings.Length
        invariant forall k :: 0 < k < i ==> prefixLen < |strings[k]| && strings[k][prefixLen] == c
      {
        if prefixLen >= |strings[i]| || strings[i][prefixLen] != c {
          // a mismatch: the prefix so far is the answer
          r := strings[i][..prefixLen];
          assert r == first[..prefixLen];
          assert strings[..][i] == strings[i];
          return;
        }
        i := i + 1;
      }
      forall k | 0 <= k < strings.Length
        ensures first[..prefixLen + 1] <= strings[k]
      {
        assert first[..prefixLen + 1] == first[..prefixLen] + [c];
        if k > 0 {
          assert strings[k][..prefixLen + 1] == strings[k][..prefixLen] + [strings[k][prefixLen]];
        }
      }
      prefixLen := prefixLen + 1;
    }
    assert first[..prefixLen] == first;
    r := first;
  }

  /** Maximality: every common prefix of the strings is a prefix of the result. */
  lemma LongestCommonPrefixMaximal(r: string, ss: seq<string>, p: string)
    requires IsLongestCommonPrefix(r, ss) && |ss| > 0
    requires forall i :: 0 <= i < |ss| ==> p <= ss[i]
    ensures p <= r
  {
    if r != ss[0] {
      var i :| 0 <= i < |ss| && (|r| >= |ss[i]| || ss[i][|r|] != ss[0][|r|]);
      assert p <= ss[0] && p <= ss[i] && r <= ss[0];
      assert p == ss[0][..|p|] && r == ss[0][..|r|];
    }
  }

  /** The result is determined by the strings. */
  lemma LongestCommonPrefixUnique(r: string, r': string, ss: seq<string>)
    requires IsLongestCommonPrefix(r, ss) && IsLongestCommonPrefix(r', ss)
    ensures r == r'
  {
    if |ss| > 0 {
      LongestCommonPrefixMaximal(r, ss, r');
      LongestCommonPrefixMaximal(r', ss, r);
    }
  }

  /** One string is its own longest common prefix. */
  lemma LongestCommonPrefixSingleton(r: string, s: string)
    requires IsLongestCommonPrefix(r, [s])
    ensures r == s
  {
    LongestCommonPrefixMaximal(r, [s], s);
  }

  /** The result is no longer than any of the strings. */
  lemma LongestCommonPrefixLength(r: string, ss: seq<string>, i: nat)
    requires IsLongestCommonPrefix(r, ss) && i < |ss|
    ensures |r| <= |ss[i]|
  {
  }

  /** The longest common prefix of two strings, character by character. */
  function CommonPrefix2(a: string, b: string): (c: string)
    ensures c <= a && c <= b
    ensures |c| == |a| || |c| == |b| || a[|c|] != b[|c|]
  {
    if |a| == 0 || |b| == 0 || a[0] != b[0] then "" else [a[0]] + CommonPrefix2(a[1..], b[1..])
  }

  /** A reference definition: the pairwise common prefix folded over the strings. */
  function CommonPrefix(ss: seq<string>): string {
    if |ss| == 0 then ""
    else if |ss| == 1 then ss[0]
    else CommonPrefix2(CommonPrefix(ss[..|ss| - 1]), ss[|ss| - 1])
  }

  /** The fold meets the contract of `longestCommonPrefix`, so the method computes it. */
  lemma {:induction false} CommonPrefixIsLongest(ss: seq<string>)
    ensures IsLongestCommonPrefix(CommonPrefix(ss), ss)
  {
    if |ss| >= 2 {
      var n := |ss| - 1;
      var init, last := ss[..n], ss[n];
      CommonPrefixIsLongest(init);
      var c', c := CommonPrefix(init), CommonPrefix(ss);
      assert c == CommonPrefix2(c', last);
      assert init[0] == ss[0];
      forall i | 0 <= i < |ss|
        ensures c <= ss[i]
      {
        if i < n {
          assert init[i] == ss[i];
        }
      }
      if c != ss[0] {
        if c == c' {
          var i :| 0 <= i < |init| && (|c'| >= |init[i]| || init[i][|c'|] != init[0][|c'|]);
          assert init[i] == ss[i];
        } else {
          assert c <= c' && c' <= ss[0];
          assert |c| < |c'|;
          assert |c| >= |ss[n]| || ss[n][|c|] != ss[0][|c|];
        }
      }
    }
  }

  /** `longestCommonPrefix` returns the fold. */
  lemma LongestCommonPrefixIsFold(r: string, ss: seq<string>)
    requires IsLongestCommonPrefix(r, ss)
    ensures r == CommonPrefix(ss)
  {
    CommonPrefixIsLongest(ss);
    LongestCommonPrefixUnique(r, CommonPrefix(ss), ss);
  }

  /** The twelve-character hashes `longestEnclosingHash` computes for the vertices. */
  function VertexHashes(points: seq<Coord>): (hs: seq<string>)
    ensures |hs| == |points|
  {
    seq(|points|, k requires 0 <= k < |points| => GeoHashOf(points[k].lat, points[k].lon, DEFAULT_PRECISION))
  }

  /**
   * `longestEnclosingHash`: encodes every vertex at `DEFAULT_PRECISION` into
   * an array and returns their longest common prefix.
   */
  method LongestEnclosingHash(polygonPoints: array<Coord>) returns (r: string)
    ensures IsLongestCommonPrefix(r, VertexHashes(polygonPoints[..]))
  {
    var hashes := new string[polygonPoints.Length];
    var i := 0;
    while i < polygonPoints.Length
      invariant 0 <= i <= polygonPoints.Length
      invariant forall k :: 0 <= k < i ==> hashes[k] == VertexHashes(polygonPoints[..])[k]
    {
      var ds := polygonPoints[i];
      hashes[i] := Encode(ds.lat, ds.lon, DEFAULT_PRECISION);
      i := i + 1;
    }
    assert hashes[..] == VertexHashes(polygonPoints[..]);
    r := LongestCommonPrefix(hashes);
  }

  /**
   * The enclosing hash is a valid hash of at most twelve characters, it is
   * each vertex's own geohash at its length, and its cell covers every
   * vertex.
   */
  lemma EnclosingHashCovers(r: string, points: seq<Coord>)
    requires IsLongestCommonPrefix(r, VertexHashes(points))
    ensures |r| <= DEFAULT_PRECISION && ValidHash(r)
    ensures forall k :: 0 <= k < |points| ==> GeoHashOf(points[k].lat, points[k].lon, |r|) == r
    ensures forall k :: 0 <= k < |points| ==> Covers(CellBox(r), points[k].lat, points[k].lon)
  {
    var hs := VertexHashes(points);
    if |points| == 0 {
      assert ValidHash(r) by {
        assert r == "";
      }
    } else {
      assert r <= hs[0];
      assert r == hs[0][..|r|];
      forall k | 0 <= k < |points|
        ensures GeoHashOf(points[k].lat, points[k].lon, |r|) == r
        ensures Covers(CellBox(r), points[k].lat, points[k].lon)
      {
        var v := points[k];
        assert r <= hs[k] && r == hs[k][..|r|];
        GeoHashPrefix(v.lat, v.lon, DEFAULT_PRECISION, |r|);
        EncodeCovers(v.lat, v.lon, |r|);
      }
    }
  }
}
