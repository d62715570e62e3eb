/** The order in which `groupby` lists its keys: Python's `<` on str, which
    compares code points left to right and puts a proper prefix first. */
module StrOrder {
  import opened Records

  predicate Less(a: string, b: string)
  {
    if a == [] then b != []
    else if b == [] then false
    else a[0] < b[0] || (a[0] == b[0] && Less(a[1..], b[1..]))
  }

  lemma {:induction false} LessIrreflexive(a: string)
    ensures !Less(a, a)
  {
    if a != [] {
      LessIrreflexive(a[1..]);
    }
  }

  lemma {:induction false} LessTransitive(a: string, b: string, c: string)
    requires Less(a, b) && Less(b, c)
    ensures Less(a, c)
  {
    if a != [] && a[0] == b[0] && b[0] == c[0] {
      LessTransitive(a[1..], b[1..], c[1..]);
    }
  }

  lemma {:induction false} LessTotal(a: string, b: string)
    requires a != b
    ensures Less(a, b) || Less(b, a)
  {
    if a != [] && b != [] && a[0] == b[0] {
      assert a == [a[0]] + a[1..] && b == [b[0]] + b[1..];
      LessTotal(a[1..], b[1..]);
    }
  }

  /** Ascending without repeats. */
  predicate StrictlySorted(s: seq<string>)
  {
    forall i, j :: 0 <= i < j < |s| ==> Less(s[i], s[j])
  }

  /** A key below the head of a sorted list is below every element of it. */
  lemma BelowHead(x: string, s: seq<string>)
    requires StrictlySorted(s) && s != [] && Less(x, s[0])
    ensures forall j :: 0 <= j < |s| ==> Less(x, s[j])
  {
    forall j | 0 < j < |s| ensures Less(x, s[j]) {
      LessTransitive(x, s[0], s[j]);
    }
  }

  /** Inserts a new key at its place in a sorted list. */
  function Insert(x: string, s: seq<string>): (r: seq<string>)
    requires StrictlySorted(s) && x !in s
    ensures StrictlySorted(r)
    ensures multiset(r) == multiset(s) + multiset{x}
  {
    if s == [] then [x]
    else if Less(x, s[0]) then
      BelowHead(x, s);
      [x] + s
    else
      LessTotal(x, s[0]);
      assert s == [s[0]] + s[1..];
      var t := Insert(x, s[1..]);
      AboveHead(s[0], x, s[1..], t);
      [s[0]] + t
  }

  /** Putting a key in front of a sorted list of larger keys keeps it sorted. */
  lemma AboveHead(h: string, x: string, s: seq<string>, t: seq<string>)
    requires Less(h, x) && StrictlySorted([h] + s) && StrictlySorted(t)
    requires multiset(t) == multiset(s) + multiset{x}
    ensures StrictlySorted([h] + t)
  {
    var r := [h] + t;
    forall i, j | 0 <= i < j < |r| ensures Less(r[i], r[j]) {
      if i == 0 {
        assert r[j] == t[j - 1] && t[j - 1] in multiset(t);
        if r[j] != x {
          assert r[j] in multiset(s);
          var k :| 0 <= k < |s| && s[k] == r[j];
          assert ([h] + s)[0] == h && ([h] + s)[k + 1] == s[k];
          assert Less(([h] + s)[0], ([h] + s)[k + 1]);
        }
      } else {
        assert r[i] == t[i - 1] && r[j] == t[j - 1];
        assert Less(t[i - 1], t[j - 1]);
      }
    }
  }

  /** sort=True of groupby: the distinct keys in ascending order. */
  function Sort(s: seq<string>): (r: seq<string>)
    requires NoDup(s)
    ensures StrictlySorted(r)
    ensures multiset(r) == multiset(s)
  {
    if s == [] then []
    else
      var n := |s| - 1;
      assert s == s[..n] + [s[n]];
      assert s[n] !in s[..n];
      var front := Sort(s[..n]);
      assert s[n] !in multiset(front);
      Insert(s[n], front)
  }
}
