/** Strict lexicographic order of strings by code point, the order of Rust's `str`, and
    sorted listings of finite sets of strings. */
module StringOrder {
  predicate Less(a: string, b: string) {
    if b == [] then false
    else if a == [] then true
    else a[0] < b[0] || (a[0] == b[0] && Less(a[1..], b[1..]))
  }

  lemma {:induction false} LessIrreflexive(a: string)
    ensures !Less(a, a)
  {
    if a != [] { LessIrreflexive(a[1..]); }
  }

  lemma {:induction false} LessTransitive(a: string, b: string, c: string)
    requires Less(a, b) && Less(b, c)
    ensures Less(a, c)
  {
    if a != [] && a[0] == b[0] == c[0] { LessTransitive(a[1..], b[1..], c[1..]); }
  }

  lemma {:induction false} LessTotal(a: string, b: string)
    ensures Less(a, b) || a == b || Less(b, a)
  {
    if a != [] && b != [] && a[0] == b[0] {
      LessTotal(a[1..], b[1..]);
      assert a == [a[0]] + a[1..] && b == [b[0]] + b[1..];
    }
  }

  /** At the first difference `a` has the smaller character, or it ends there. */
  predicate Before(a: string, b: string, k: nat) {
    k <= |a| && k < |b| && a[..k] == b[..k] && (k == |a| || a[k] < b[k])
  }

  lemma {:induction false} LessExactly(a: string, b: string)
    ensures Less(a, b) <==> exists k :: Before(a, b, k)
  {
    if b != [] {
      if a == [] {
        assert Before(a, b, 0);
      } else {
        LessExactly(a[1..], b[1..]);
        assert a[0] < b[0] ==> Before(a, b, 0);
        if k: nat :| Before(a[1..], b[1..], k) && a[0] == b[0] {
          assert a[..k + 1] == [a[0]] + a[1..][..k] && b[..k + 1] == [b[0]] + b[1..][..k];
          assert Before(a, b, k + 1);
        }
        forall k: nat | Before(a, b, k) ensures Less(a, b) {
          if k > 0 {
            assert a[..k][0] == a[0] && b[..k][0] == b[0];
            assert a[1..][..k - 1] == a[..k][1..] && b[1..][..k - 1] == b[..k][1..];
            assert Before(a[1..], b[1..], k - 1);
          }
        }
      }
    }
  }

  predicate Ascending(s: seq<string>) { forall i, j :: 0 <= i < j < |s| ==> Less(s[i], s[j]) }

  function Elements(s: seq<string>): set<string> { set x | x in s }

  ghost predicate IsListing(s: seq<string>, keys: set<string>) { Ascending(s) && Elements(s) == keys }

  /** A set of strings has one sorted listing. */
  lemma {:induction false} ListingUnique(s: seq<string>, t: seq<string>)
    requires Ascending(s) && Ascending(t) && Elements(s) == Elements(t)
    ensures s == t
  {
    assert forall x :: x in s <==> x in Elements(s);
    assert forall x :: x in t <==> x in Elements(t);
    assert s != [] ==> |Elements(s)| > 0 by { if s != [] { assert s[0] in Elements(s); } }
    assert t != [] ==> |Elements(t)| > 0 by { if t != [] { assert t[0] in Elements(t); } }
    if s != [] {
      assert s[0] in t && t[0] in s;
      if s[0] != t[0] {
        LessTransitive(s[0], t[0], s[0]);
        LessIrreflexive(s[0]);
      }
      HeadApart(s);
      HeadApart(t);
      ListingUnique(s[1..], t[1..]);
    }
  }

  lemma HeadApart(s: seq<string>)
    requires s != [] && Ascending(s)
    ensures Elements(s[1..]) == Elements(s) - {s[0]}
  {
    LessIrreflexive(s[0]);
    assert forall x :: x in s[1..] ==> Less(s[0], x);
    assert forall x :: x in s ==> x == s[0] || x in s[1..];
  }

  function Insert(s: seq<string>, k: string): seq<string> {
    if s == [] || Less(k, s[0]) then [k] + s else [s[0]] + Insert(s[1..], k)
  }

  lemma {:induction false} InsertListing(s: seq<string>, k: string)
    requires Ascending(s) && k !in s
    ensures IsListing(Insert(s, k), Elements(s) + {k})
  {
    if s != [] {
      if Less(k, s[0]) {
        forall x | x in s[1..] ensures Less(k, x) { LessTransitive(k, s[0], x); }
      } else {
        LessTotal(k, s[0]);
        InsertListing(s[1..], k);
        var t := Insert(s[1..], k);
        forall i | 0 <= i < |t| ensures Less(s[0], t[i]) { assert t[i] in Elements(t); }
        assert Elements([s[0]] + t) == {s[0]} + Elements(t);
        assert Elements(s) == {s[0]} + Elements(s[1..]);
      }
      assert Less(k, s[0]) ==> Elements([k] + s) == {k} + Elements(s);
    }
  }

  lemma {:induction false} ListingExists(keys: set<string>)
    ensures exists s :: IsListing(s, keys)
  {
    if keys == {} {
      assert IsListing([], keys);
    } else {
      var k :| k in keys;
      ListingExists(keys - {k});
      var t :| IsListing(t, keys - {k});
      assert k !in Elements(t);
      InsertListing(t, k);
      assert IsListing(Insert(t, k), keys);
    }
  }

  ghost function Sorted(keys: set<string>): (s: seq<string>)
    ensures IsListing(s, keys)
  {
    ListingExists(keys);
    var s :| IsListing(s, keys);
    s
  }
}
