/** Small value types and the JavaScript array/string built-ins the views rely on:
    `join`, `includes` on strings, `indexOf`, `flat`, `filter` and `Array.from(new Set(...))`. */
module Common {

  /** `undefined`/`null` versus a present value. */
  datatype Option<+T> = None | Some(value: T) {
    /** `x ?? d` and `x || d` for values that are never falsy when present (arrays, objects). */
    function GetOr(default: T): T {
      match this
      case Some(v) => v
      case None => default
    }
  }

  /** A computation that returns a value or throws a `TypeError` (a property read on
      `undefined`). */
  datatype Outcome<+T> = Returns(value: T) | Throws

  /** `s[n]`, which is `undefined` outside the array. */
  function Lookup<T>(s: seq<T>, n: int): (r: Option<T>)
    ensures r.Some? <==> 0 <= n < |s|
    ensures r.Some? ==> r.value == s[n]
  {
    if 0 <= n < |s| then Some(s[n]) else None
  }

  /** `parts.join(sep)`: the parts with `sep` between neighbours; `""` for no parts. */
  function Join(parts: seq<string>, sep: string): (r: string)
    ensures |parts| == 0 ==> r == ""
    ensures |parts| > 0 && parts[0] != "" ==> |r| > 0
  {
    if |parts| == 0 then ""
    else if |parts| == 1 then parts[0]
    else parts[0] + sep + Join(parts[1..], sep)
  }

  /** Joining one more part adds the separator and the part at the end. */
  lemma {:induction false} JoinAppend(parts: seq<string>, sep: string, last: string)
    requires |parts| > 0
    ensures Join(parts + [last], sep) == Join(parts, sep) + sep + last
    decreases |parts|
  {
    if |parts| > 1 {
      assert (parts + [last])[1..] == parts[1..] + [last];
      JoinAppend(parts[1..], sep, last);
    } else {
      assert parts + [last] == [parts[0], last];
    }
  }

  /** `ss.flat()`: the concatenation of the inner sequences, in order. */
  function Flatten<T>(ss: seq<seq<T>>): seq<T>
  {
    if |ss| == 0 then [] else Flatten(ss[..|ss| - 1]) + ss[|ss| - 1]
  }

  lemma {:induction false} FlattenAppend<T>(ss: seq<seq<T>>, tt: seq<seq<T>>)
    ensures Flatten(ss + tt) == Flatten(ss) + Flatten(tt)
    decreases |tt|
  {
    if |tt| == 0 {
      assert ss + tt == ss;
    } else {
      var n := |tt| - 1;
      assert (ss + tt)[..|ss + tt| - 1] == ss + tt[..n];
      FlattenAppend(ss, tt[..n]);
    }
  }

  /** `needle` sits in `hay` starting at offset `i`. */
  predicate OccursAt(hay: string, needle: string, i: int)
  {
    0 <= i && i + |needle| <= |hay| && hay[i..i + |needle|] == needle
  }

  /** `hay.includes(needle)`, written as a prefix test at each offset. */
  predicate Includes(hay: string, needle: string)
    ensures Includes(hay, needle) ==> |needle| <= |hay|
    decreases |hay|
  {
    needle <= hay || (|hay| > 0 && Includes(hay[1..], needle))
  }

  /** `includes` finds exactly the offsets at which the needle occurs. */
  lemma {:induction false} IncludesIffOccurs(hay: string, needle: string)
    ensures Includes(hay, needle) <==> exists i :: OccursAt(hay, needle, i)
    decreases |hay|
  {
    if needle <= hay {
      assert hay[0..|needle|] == needle;
      assert OccursAt(hay, needle, 0);
    } else if |hay| == 0 {
      assert forall i :: !OccursAt(hay, needle, i);
    } else {
      IncludesIffOccurs(hay[1..], needle);
      if Includes(hay[1..], needle) {
        var i :| OccursAt(hay[1..], needle, i);
        assert hay[1..][i..i + |needle|] == hay[i + 1..i + 1 + |needle|];
        assert OccursAt(hay, needle, i + 1);
      } else {
        forall i | 0 < i && OccursAt(hay, needle, i) ensures OccursAt(hay[1..], needle, i - 1) {
          assert hay[1..][i - 1..i - 1 + |needle|] == hay[i..i + |needle|];
        }
        assert !OccursAt(hay, needle, 0);
      }
    }
  }

  /** Every string includes the empty string. */
  lemma IncludesEmpty(hay: string)
    ensures Includes(hay, "")
  {
    assert "" <= hay;
  }

  /** `s.indexOf(x)`: the first position of `x`, or -1. */
  function IndexOf<T(==)>(s: seq<T>, x: T): (r: int)
    ensures -1 <= r < |s|
    ensures r == -1 <==> x !in s
    ensures 0 <= r ==> s[r] == x && x !in s[..r]
  {
    if |s| == 0 then -1
    else if s[0] == x then 0
    else
      var k := IndexOf(s[1..], x);
      assert s[1..][..k + 1] == s[1..k + 2] by { }
      if k == -1 then -1 else k + 1
  }

  /** `s.filter(keep)`. */
  function Filter<T>(s: seq<T>, keep: T -> bool): (r: seq<T>)
    ensures |r| <= |s|
    ensures forall i :: 0 <= i < |r| ==> r[i] in s && keep(r[i])
  {
    if |s| == 0 then []
    else
      var init := Filter(s[..|s| - 1], keep);
      if keep(s[|s| - 1]) then init + [s[|s| - 1]] else init
  }

  /** `s.filter(x => !keep(x))`. */
  function Reject<T>(s: seq<T>, keep: T -> bool): (r: seq<T>)
    ensures |r| <= |s|
    ensures forall i :: 0 <= i < |r| ==> r[i] in s && !keep(r[i])
  {
    if |s| == 0 then []
    else
      var init := Reject(s[..|s| - 1], keep);
      if keep(s[|s| - 1]) then init else init + [s[|s| - 1]]
  }

  lemma {:induction false} FilterAppend<T>(a: seq<T>, b: seq<T>, keep: T -> bool)
    ensures Filter(a + b, keep) == Filter(a, keep) + Filter(b, keep)
    decreases |b|
  {
    if |b| == 0 {
      assert a + b == a;
    } else {
      assert (a + b)[..|a + b| - 1] == a + b[..|b| - 1];
      FilterAppend(a, b[..|b| - 1], keep);
    }
  }

  /** A filter and the filter by the negated test split the input between them:
      nothing is lost and nothing is duplicated. */
  lemma {:induction false} FilterSplit<T>(s: seq<T>, keep: T -> bool)
    ensures multiset(Filter(s, keep)) + multiset(Reject(s, keep)) == multiset(s)
  {
    if |s| > 0 {
      var init := s[..|s| - 1];
      FilterSplit(init, keep);
      assert s == init + [s[|s| - 1]];
    }
  }

  /** A filter keeps every element it accepts. */
  lemma {:induction false} FilterKeeps<T>(s: seq<T>, keep: T -> bool, i: int)
    requires 0 <= i < |s| && keep(s[i])
    ensures s[i] in Filter(s, keep)
  {
    var init := s[..|s| - 1];
    if i < |s| - 1 {
      assert s[i] == init[i];
      FilterKeeps(init, keep, i);
    }
  }

  /** A filter by the negated test keeps every element the test refuses. */
  lemma {:induction false} RejectKeeps<T>(s: seq<T>, keep: T -> bool, i: int)
    requires 0 <= i < |s| && !keep(s[i])
    ensures s[i] in Reject(s, keep)
  {
    var init := s[..|s| - 1];
    if i < |s| - 1 {
      assert s[i] == init[i];
      RejectKeeps(init, keep, i);
    }
  }

  /** `m` sends each position of `r` to a position of `s` holding the same value, and
      keeps positions in increasing order: `r` is `s` with some elements left out. */
  ghost predicate Embeds<T>(m: seq<nat>, r: seq<T>, s: seq<T>)
  {
    |m| == |r| &&
    (forall i :: 0 <= i < |m| ==> m[i] < |s| && s[m[i]] == r[i]) &&
    (forall i, j :: 0 <= i < j < |m| ==> m[i] < m[j])
  }

  /** `r` keeps the relative order of the elements it takes from `s`. */
  ghost predicate SubsequenceOf<T>(r: seq<T>, s: seq<T>)
  {
    exists m :: Embeds(m, r, s)
  }

  /** The positions a filter keeps, in increasing order. */
  lemma {:induction false} FilterEmbedding<T>(s: seq<T>, keep: T -> bool) returns (m: seq<nat>)
    ensures Embeds(m, Filter(s, keep), s)
  {
    if |s| == 0 {
      m := [];
    } else {
      var n := |s| - 1;
      var m0 := FilterEmbedding(s[..n], keep);
      EmbedsInPrefix(m0, Filter(s[..n], keep), s);
      if keep(s[n]) {
        m := m0 + [n];
        EmbedsExtend(m0, Filter(s[..n], keep), s);
      } else {
        m := m0;
      }
    }
  }

  /** The positions a filter by the negated test keeps, in increasing order. */
  lemma {:induction false} RejectEmbedding<T>(s: seq<T>, keep: T -> bool) returns (m: seq<nat>)
    ensures Embeds(m, Reject(s, keep), s)
  {
    if |s| == 0 {
      m := [];
    } else {
      var n := |s| - 1;
      var m0 := RejectEmbedding(s[..n], keep);
      EmbedsInPrefix(m0, Reject(s[..n], keep), s);
      if !keep(s[n]) {
        m := m0 + [n];
        EmbedsExtend(m0, Reject(s[..n], keep), s);
      } else {
        m := m0;
      }
    }
  }

  /** An embedding into a prefix of `s` is an embedding into `s`. */
  lemma EmbedsInPrefix<T>(m: seq<nat>, r: seq<T>, s: seq<T>)
    requires |s| > 0 && Embeds(m, r, s[..|s| - 1])
    ensures Embeds(m, r, s) && forall i :: 0 <= i < |m| ==> m[i] < |s| - 1
  {
    assert forall i :: 0 <= i < |m| ==> s[..|s| - 1][m[i]] == s[m[i]];
  }

  /** Taking the last element of `s` as well extends the embedding by its position. */
  lemma EmbedsExtend<T>(m: seq<nat>, r: seq<T>, s: seq<T>)
    requires |s| > 0 && Embeds(m, r, s) && forall i :: 0 <= i < |m| ==> m[i] < |s| - 1
    ensures Embeds(m + [|s| - 1], r + [s[|s| - 1]], s)
  {
  }

  /** Both filters keep the input's order. */
  lemma FiltersKeepOrder<T>(s: seq<T>, keep: T -> bool)
    ensures SubsequenceOf(Filter(s, keep), s)
    ensures SubsequenceOf(Reject(s, keep), s)
  {
    var m := FilterEmbedding(s, keep);
    var m' := RejectEmbedding(s, keep);
  }

  /** `Array.from(new Set(s))`: the distinct values of `s` in first-occurrence order. */
  function Distinct<T(==)>(s: seq<T>): (r: seq<T>)
    ensures forall i, j :: 0 <= i < j < |r| ==> r[i] != r[j]
    ensures forall i :: 0 <= i < |r| ==> r[i] in s
    ensures forall i :: 0 <= i < |s| ==> s[i] in r
    ensures |r| <= |s|
  {
    if |s| == 0 then []
    else
      var init := Distinct(s[..|s| - 1]);
      assert forall i :: 0 <= i < |s| - 1 ==> s[i] == s[..|s| - 1][i];
      if s[|s| - 1] in init then init else init + [s[|s| - 1]]
  }

  /** `Distinct` lists values in the order of their first occurrence in `s`. */
  lemma {:induction false} DistinctFirstOccurrenceOrder<T>(s: seq<T>, i: int, j: int)
    requires 0 <= i < j < |Distinct(s)|
    ensures IndexOf(s, Distinct(s)[i]) < IndexOf(s, Distinct(s)[j])
  {
    var n := |s| - 1;
    var init := s[..n];
    var d := Distinct(s);
    var di := Distinct(init);
    assert d == if s[n] in di then di else di + [s[n]];
    if j < |di| {
      assert d[i] == di[i] && d[j] == di[j];
      DistinctFirstOccurrenceOrder(init, i, j);
      IndexOfPrefix(s, n, d[i]);
      IndexOfPrefix(s, n, d[j]);
    } else {
      assert d[i] == di[i] && d[i] in init;
      IndexOfPrefix(s, n, d[i]);
      IndexOfLast(s, d[j]);
    }
  }

  /** A value first occurring at the last position is found there. */
  lemma IndexOfLast<T>(s: seq<T>, x: T)
    requires |s| > 0 && s[|s| - 1] == x && x !in s[..|s| - 1]
    ensures IndexOf(s, x) == |s| - 1
  {
    assert forall m :: 0 <= m < |s| - 1 ==> s[..|s| - 1][m] == s[m];
  }

  /** The first position of a value that occurs in a prefix is found within the prefix. */
  lemma IndexOfPrefix<T>(s: seq<T>, n: nat, x: T)
    requires n <= |s| && x in s[..n]
    ensures IndexOf(s, x) == IndexOf(s[..n], x)
  {
    var k' := IndexOf(s[..n], x);
    assert s[..n][..k'] == s[..k'];
    assert s[k'] == x;
  }

  /** A duplicate-free sequence whose elements all occur in `b` is no longer than `b`. */
  lemma {:induction false} DistinctElementsFit<T>(a: seq<T>, b: seq<T>)
    requires forall i, j :: 0 <= i < j < |a| ==> a[i] != a[j]
    requires forall i :: 0 <= i < |a| ==> a[i] in b
    ensures |a| <= |b|
    decreases |a|
  {
    if |a| > 0 {
      var x := a[|a| - 1];
      var k :| 0 <= k < |b| && b[k] == x;
      var b' := b[..k] + b[k + 1..];
      var a' := a[..|a| - 1];
      forall i | 0 <= i < |a'| ensures a'[i] in b' {
        var m :| 0 <= m < |b| && b[m] == a'[i];
        assert a'[i] != x;
        if m < k {
          assert b'[m] == b[m];
        } else {
          assert b'[m - 1] == b[m];
        }
      }
      DistinctElementsFit(a', b');
    }
  }
}
