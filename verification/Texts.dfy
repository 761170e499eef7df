/** The lexicographic order of texts. */
module Texts {
  predicate Below(a: string, b: string) {
    if b == "" then false
    else if a == "" then true
    else if a[0] != b[0] then a[0] < b[0]
    else Below(a[1..], b[1..])
  }

  lemma {:induction false} BelowIsStrict(a: string, b: string)
    requires Below(a, b)
    ensures !Below(b, a) && a != b
  {
    if a != "" && a[0] == b[0] {
      BelowIsStrict(a[1..], b[1..]);
    }
  }

  lemma {:induction false} BelowIsTransitive(a: string, b: string, c: string)
    requires Below(a, b) && Below(b, c)
    ensures Below(a, c)
  {
    if a != "" && a[0] == b[0] == c[0] {
      BelowIsTransitive(a[1..], b[1..], c[1..]);
    }
  }

  lemma {:induction false} BelowIsTotal(a: string, b: string)
    ensures a == b || Below(a, b) || Below(b, a)
  {
    if a != "" && b != "" && a[0] == b[0] {
      BelowIsTotal(a[1..], b[1..]);
      assert a == [a[0]] + a[1..] && b == [b[0]] + b[1..];
    }
  }

  lemma BelowIrreflexive(a: string)
    ensures !Below(a, a)
  {
    if Below(a, a) {
      BelowIsStrict(a, a);
    }
  }

  lemma NotBelowTransitive(a: string, b: string, c: string)
    requires !Below(a, b) && !Below(b, c)
    ensures !Below(a, c)
  {
    if Below(a, c) {
      BelowIsTotal(a, b);
      BelowIsTotal(b, c);
      if Below(b, a) {
        BelowIsTransitive(b, a, c);
      }
    }
  }

  predicate Ascending(s: seq<string>) {
    forall i :: 0 < i < |s| ==> Below(s[i - 1], s[i])
  }

  lemma {:induction false} AscendingPairs(s: seq<string>, i: nat, j: nat)
    requires Ascending(s) && i < j < |s|
    ensures Below(s[i], s[j])
    decreases j
  {
    if i < j - 1 {
      AscendingPairs(s, i, j - 1);
      BelowIsTransitive(s[i], s[j - 1], s[j]);
    }
  }

  /** A strictly ascending list is determined by its elements. */
  lemma {:induction false} AscendingUnique(s: seq<string>, t: seq<string>)
    requires Ascending(s) && Ascending(t) && forall x :: x in s <==> x in t
    ensures s == t
  {
    assert (s == [] || s[0] in s) && (t == [] || t[0] in t);
    if s != [] && t != [] {
      HeadIsLeast(s, t);
      HeadIsLeast(t, s);
      if s[0] != t[0] {
        BelowIsStrict(s[0], t[0]);
      }
      TailElements(s);
      TailElements(t);
      AscendingUnique(s[1..], t[1..]);
      assert s == [s[0]] + s[1..] && t == [t[0]] + t[1..];
    }
  }

  lemma HeadIsLeast(s: seq<string>, t: seq<string>)
    requires Ascending(s) && s != [] && t != [] && t[0] in s
    ensures s[0] == t[0] || Below(s[0], t[0])
  {
    var j :| 0 <= j < |s| && s[j] == t[0];
    if j > 0 {
      AscendingPairs(s, 0, j);
    }
  }

  lemma TailElements(s: seq<string>)
    requires Ascending(s) && s != []
    ensures Ascending(s[1..]) && forall x :: x in s[1..] <==> x in s && x != s[0]
  {
    forall j | 0 < j < |s| ensures s[j] != s[0] {
      AscendingPairs(s, 0, j);
      BelowIsStrict(s[0], s[j]);
    }
    forall x | x in s && x != s[0] ensures x in s[1..] {
      var j :| 0 <= j < |s| && s[j] == x;
      assert s[1..][j - 1] == x;
    }
  }
}
