/** Python's ordering of strings (by code point, lexicographic) and `sorted(set(...))`. */
module Text {

  predicate Less(a: string, b: string) {
    if b == "" then false
    else if a == "" then true
    else a[0] < b[0] || (a[0] == b[0] && Less(a[1..], b[1..]))
  }

  /** The strings agree up to position k, where the first has the smaller code point. */
  ghost predicate SmallerAt(a: string, b: string, k: int) {
    0 <= k < |a| && k < |b| && a[..k] == b[..k] && a[k] < b[k]
  }

  /** The order of Python's strings: a proper prefix comes first, otherwise the first difference decides. */
  lemma {:induction false} LessExactly(a: string, b: string)
    ensures Less(a, b) <==> a < b || exists k :: SmallerAt(a, b, k)
    decreases |a|, 1
  {
    if a != "" && b != "" {
      if a[0] < b[0] {
        assert SmallerAt(a, b, 0);
      } else {
        forall k | SmallerAt(a, b, k) ensures k > 0 && a[0] == b[0] {
          assert k > 0 ==> a[..k][0] == b[..k][0];
        }
        if a[0] == b[0] { LessTail(a, b); }
      }
    }
  }

  lemma {:induction false} LessTail(a: string, b: string)
    requires a != "" && b != "" && a[0] == b[0]
    ensures Less(a[1..], b[1..]) <==> a < b || exists k :: SmallerAt(a, b, k)
    decreases |a|, 0
  {
    var c, d := a[1..], b[1..];
    LessExactly(c, d);
    assert a == [a[0]] + c && b == [b[0]] + d;
    assert a < b <==> c < d;
    forall k ensures SmallerAt(c, d, k) ==> SmallerAt(a, b, k + 1) {
      if SmallerAt(c, d, k) { assert a[..k + 1] == [a[0]] + c[..k] && b[..k + 1] == [b[0]] + d[..k]; }
    }
    forall k ensures SmallerAt(a, b, k) ==> SmallerAt(c, d, k - 1) {
      if SmallerAt(a, b, k) { assert c[..k - 1] == a[..k][1..] && d[..k - 1] == b[..k][1..]; }
    }
  }

  lemma {:induction false} LessIrreflexive(a: string)
    ensures !Less(a, a)
  {
    if a != "" { LessIrreflexive(a[1..]); }
  }

  lemma {:induction false} LessTransitive(a: string, b: string, c: string)
    requires Less(a, b) && Less(b, c)
    ensures Less(a, c)
  {
    if a != "" && a[0] == b[0] && b[0] == c[0] {
      LessTransitive(a[1..], b[1..], c[1..]);
    }
  }

  lemma {:induction false} LessTotal(a: string, b: string)
    ensures Less(a, b) || a == b || Less(b, a)
  {
    if a != "" && b != "" && a[0] == b[0] {
      LessTotal(a[1..], b[1..]);
      assert a == [a[0]] + a[1..] && b == [b[0]] + b[1..];
    }
  }

  lemma LessAsymmetric(a: string, b: string)
    requires Less(a, b)
    ensures !Less(b, a) && a != b
  {
    if Less(b, a) { LessTransitive(a, b, a); }
    LessIrreflexive(a);
  }

  ghost predicate StrictlySorted(s: seq<string>) {
    forall i, j :: 0 <= i < j < |s| ==> Less(s[i], s[j])
  }

  function Insert(x: string, s: seq<string>): seq<string> {
    if s == [] then [x]
    else if x == s[0] then s
    else if Less(x, s[0]) then [x] + s
    else [s[0]] + Insert(x, s[1..])
  }

  /** `sorted(set(xs))`. */
  function SortedSet(xs: seq<string>): seq<string> {
    if xs == [] then [] else Insert(xs[0], SortedSet(xs[1..]))
  }

  lemma {:induction false} InsertCorrect(x: string, s: seq<string>)
    requires StrictlySorted(s)
    ensures StrictlySorted(Insert(x, s))
    ensures forall y :: y in Insert(x, s) <==> y == x || y in s
  {
    if s == [] || x == s[0] {
    } else if Less(x, s[0]) {
      forall j | 0 <= j < |s| ensures Less(x, s[j]) {
        if j > 0 { LessTransitive(x, s[0], s[j]); }
      }
    } else {
      LessTotal(x, s[0]);
      var t := Insert(x, s[1..]);
      InsertCorrect(x, s[1..]);
      forall j | 0 <= j < |t| ensures Less(s[0], t[j]) {
        assert t[j] == x || t[j] in s[1..];
      }
      assert s == [s[0]] + s[1..];
    }
  }

  lemma {:induction false} SortedSetCorrect(xs: seq<string>)
    ensures StrictlySorted(SortedSet(xs))
    ensures forall y :: y in SortedSet(xs) <==> y in xs
  {
    if xs != [] {
      SortedSetCorrect(xs[1..]);
      InsertCorrect(xs[0], SortedSet(xs[1..]));
    }
  }

  /** A set of names has only one strictly sorted listing. */
  lemma {:induction false} SortedUnique(s: seq<string>, t: seq<string>)
    requires StrictlySorted(s) && StrictlySorted(t)
    requires forall y :: y in s <==> y in t
    ensures s == t
  {
    if t != [] { assert t[0] in s; }
    if s != [] {
      assert s[0] in t;
      var i :| 0 <= i < |t| && t[i] == s[0];
      var j :| 0 <= j < |s| && s[j] == t[0] by { assert t[0] in s; }
      if i > 0 {
        assert Less(t[0], t[i]);
        if j > 0 { assert Less(s[0], s[j]); LessAsymmetric(s[0], t[0]); }
      }
      forall y ensures y in s[1..] <==> y in t[1..] {
        LessIrreflexive(s[0]);
        assert y in s[1..] ==> y in s && y != s[0];
        assert y in t[1..] ==> y in t && y != t[0];
        assert s == [s[0]] + s[1..] && t == [t[0]] + t[1..];
      }
      SortedUnique(s[1..], t[1..]);
      assert s == [s[0]] + s[1..] && t == [t[0]] + t[1..];
    }
  }

  /** How many names sort before the key: where the key would be inserted. */
  function InsertionPoint(s: seq<string>, key: string): (k: nat)
    ensures k <= |s|
  {
    if s == [] || !Less(s[0], key) then 0 else 1 + InsertionPoint(s[1..], key)
  }

  lemma {:induction false} InsertionPointUnique(s: seq<string>, key: string, k: nat)
    requires k <= |s|
    requires forall i :: 0 <= i < k ==> Less(s[i], key)
    requires k < |s| ==> !Less(s[k], key)
    ensures InsertionPoint(s, key) == k
  {
    if k > 0 {
      assert forall i :: 0 <= i < k - 1 ==> s[1..][i] == s[i + 1];
      InsertionPointUnique(s[1..], key, k - 1);
    }
  }
}
