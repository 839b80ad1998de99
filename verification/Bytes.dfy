/** Byte strings and the searches the HTTP code makes in them. A byte is a `char`. */
module Bytes {
  const CRLF := "\r\n"
  const DASH := "--"

  datatype Option<+T> = None | Some(value: T)

  predicate OccursAt(s: string, p: string, i: nat) {
    i + |p| <= |s| && s[i..i + |p|] == p
  }

  /** The least position at or after `i` where `p` occurs, or `|s|`. */
  function FindFrom(s: string, p: string, i: nat): (r: nat)
    requires p != "" && i <= |s|
    ensures i <= r <= |s|
    ensures r < |s| ==> OccursAt(s, p, r)
    ensures forall k: nat :: i <= k < r ==> !OccursAt(s, p, k)
    decreases |s| - i
  {
    if i == |s| || OccursAt(s, p, i) then i else FindFrom(s, p, i + 1)
  }

  function Find(s: string, p: string): (r: nat)
    requires p != ""
    ensures r <= |s|
    ensures r < |s| ==> OccursAt(s, p, r)
    ensures forall k: nat :: k < r ==> !OccursAt(s, p, k)
  {
    FindFrom(s, p, 0)
  }

  lemma Assoc<T>(a: seq<T>, b: seq<T>, c: seq<T>)
    ensures (a + b) + c == a + (b + c)
  {
  }

  lemma Slices(s: string, a: nat, b: nat, c: nat, d: nat)
    requires a <= b <= |s| && c <= d <= b - a
    ensures s[a..b][c..d] == s[a + c..a + d]
  {
    forall i | 0 <= i < d - c ensures s[a..b][c..d][i] == s[a + c..a + d][i] {
      assert s[a..b][c + i] == s[a + c + i];
    }
  }

  lemma Tails(s: string, a: nat, b: nat)
    requires a + b <= |s|
    ensures s[a..][b..] == s[a + b..] && s[a..][..b] == s[a..a + b]
  {
  }

  lemma PrefixOfJoin(a: string, x: string, y: string)
    requires |a| <= |x|
    ensures a <= x + y <==> a <= x
  {
    assert (x + y)[..|a|] == x[..|a|];
  }

  lemma FindAt(s: string, p: string, r: nat)
    requires p != "" && OccursAt(s, p, r) && forall k: nat :: k < r ==> !OccursAt(s, p, k)
    ensures Find(s, p) == r
  {
  }

  lemma FindNone(s: string, p: string, n: nat)
    requires p != "" && n + |p| > |s| && forall k: nat :: k < n ==> !OccursAt(s, p, k)
    ensures Find(s, p) == |s|
  {
  }

  lemma OccurrenceFits(s: string, p: string, i: nat)
    requires OccursAt(s, p, i)
    ensures i + |p| <= |s|
  {
  }

  lemma OccurrenceByte(s: string, p: string, i: nat, j: nat)
    requires OccursAt(s, p, i) && j < |p|
    ensures s[i + j] == p[j]
  {
    assert s[i..i + |p|][j] == s[i + j];
  }

  lemma OccurrenceStarts(s: string, p: string, i: nat)
    requires OccursAt(s, p, i) && p != ""
    ensures s[i] == p[0]
  {
    OccurrenceByte(s, p, i, 0);
  }

  lemma OccursInPrefix(x: string, y: string, p: string, i: nat)
    requires i + |p| <= |x|
    ensures OccursAt(x + y, p, i) <==> OccursAt(x, p, i)
  {
    assert (x + y)[i..i + |p|] == x[i..i + |p|];
  }

  lemma OccursInSuffix(x: string, y: string, p: string, i: nat)
    ensures OccursAt(x + y, p, |x| + i) <==> OccursAt(y, p, i)
  {
    if i + |p| <= |y| {
      assert (x + y)[|x| + i..|x| + i + |p|] == y[i..i + |p|];
    }
  }

  /** A match that is complete in `x` is the first match however `x` goes on. */
  lemma FindExtends(x: string, y: string, p: string)
    requires p != ""
    ensures Find(x, p) < |x| ==> Find(x + y, p) == Find(x, p)
  {
    var r := Find(x, p);
    if r < |x| {
      forall k: nat | k <= r ensures OccursAt(x + y, p, k) <==> OccursAt(x, p, k) {
        OccursInPrefix(x, y, p, k);
      }
    }
  }

  /** Dropping a prefix in which no match starts moves the first match. */
  lemma FindDrops(x: string, y: string, p: string)
    requires p != "" && Find(x + y, p) >= |x|
    ensures Find(y, p) == Find(x + y, p) - |x|
  {
    var r := Find(x + y, p);
    if r < |x + y| {
      OccursInSuffix(x, y, p, r - |x|);
    }
    forall k: nat | k < r - |x| ensures !OccursAt(y, p, k) {
      OccursInSuffix(x, y, p, k);
    }
    if Find(y, p) < |y| {
      OccursInSuffix(x, y, p, Find(y, p));
    }
  }

  /** The concatenation of a list of pieces. */
  function Concat(pieces: seq<string>): (s: string)
  {
    if pieces == [] then "" else pieces[0] + Concat(pieces[1..])
  }

  lemma ConcatAppend(xs: seq<string>, ys: seq<string>)
    ensures Concat(xs + ys) == Concat(xs) + Concat(ys)
  {
    if xs == [] {
      assert xs + ys == ys;
    } else {
      assert (xs + ys)[1..] == xs[1..] + ys;
      ConcatAppend(xs[1..], ys);
    }
  }
}
