/** The key order of the store: RocksDB's default bytewise comparator, i.e.
    lexicographic order on byte strings in which a proper prefix sorts first. */
module Lex {
  import opened Bytes

  type Key = seq<byte>

  /** `a <= b` in bytewise lexicographic order. */
  predicate LexLe(a: Key, b: Key)
    ensures HasPrefix(a, b) ==> LexLe(a, b)
    ensures |a| > 0 && |b| > 0 && a[0] != b[0] ==> (LexLe(a, b) <==> a[0] < b[0])
    ensures |a| > 0 && |b| == 0 ==> !LexLe(a, b)
  {
    |a| == 0 || (|b| > 0 && (a[0] < b[0] || (a[0] == b[0] && LexLe(a[1..], b[1..]))))
  }

  /** `k` starts with `p` (the comparison `k[..p.len()] == p[..]` when it does not panic). */
  predicate HasPrefix(p: Key, k: Key)
  {
    |p| <= |k| && k[..|p|] == p
  }

  lemma {:induction false} LexLeReflexive(a: Key)
    ensures LexLe(a, a)
  {
    if |a| > 0 { LexLeReflexive(a[1..]); }
  }

  lemma {:induction false} LexLeAntisymmetric(a: Key, b: Key)
    requires LexLe(a, b) && LexLe(b, a)
    ensures a == b
  {
    if |a| > 0 {
      LexLeAntisymmetric(a[1..], b[1..]);
      assert a == [a[0]] + a[1..] && b == [b[0]] + b[1..];
    }
  }

  lemma {:induction false} LexLeTransitive(a: Key, b: Key, c: Key)
    requires LexLe(a, b) && LexLe(b, c)
    ensures LexLe(a, c)
  {
    if |a| > 0 && a[0] == b[0] && b[0] == c[0] {
      LexLeTransitive(a[1..], b[1..], c[1..]);
    }
  }

  lemma {:induction false} LexLeTotal(a: Key, b: Key)
    ensures LexLe(a, b) || LexLe(b, a)
  {
    if |a| > 0 && |b| > 0 && a[0] == b[0] {
      LexLeTotal(a[1..], b[1..]);
    }
  }

  /** A key sorts at or after each of its prefixes. */
  lemma {:induction false} PrefixIsLexLe(p: Key, k: Key)
    requires HasPrefix(p, k)
    ensures LexLe(p, k)
  {
    if |p| > 0 {
      assert k[1..][..|p| - 1] == p[1..];
      PrefixIsLexLe(p[1..], k[1..]);
    }
  }

  /** Keys that share a prefix are contiguous in key order: anything sorted
      between two keys starting with `p` starts with `p` too. */
  lemma {:induction false} PrefixContiguous(p: Key, a: Key, b: Key, c: Key)
    requires HasPrefix(p, a) && HasPrefix(p, c)
    requires LexLe(a, b) && LexLe(b, c)
    ensures HasPrefix(p, b)
  {
    if |p| > 0 {
      assert a[0] == p[0] && c[0] == p[0];
      assert b[0] == p[0];
      assert a[1..][..|p| - 1] == p[1..];
      assert c[1..][..|p| - 1] == p[1..];
      PrefixContiguous(p[1..], a[1..], b[1..], c[1..]);
      assert b[..|p|] == [b[0]] + b[1..][..|p| - 1];
    }
  }

  /** Ascending key order. */
  predicate Sorted(ks: seq<Key>)
  {
    forall i, j :: 0 <= i < j < |ks| ==> LexLe(ks[i], ks[j])
  }

  /** Every finite non-empty set of keys has a least key. */
  lemma {:induction false} LeastKeyExists(s: set<Key>)
    requires s != {}
    ensures exists m :: m in s && forall x :: x in s ==> LexLe(m, x)
  {
    var y :| y in s;
    var rest := s - {y};
    if rest == {} {
      assert s == {y};
      LexLeReflexive(y);
    } else {
      LeastKeyExists(rest);
      var m :| m in rest && forall x :: x in rest ==> LexLe(m, x);
      LexLeTotal(m, y);
      if LexLe(m, y) {
        forall x | x in s ensures LexLe(m, x) {
          if x != y { assert x in rest; }
        }
        assert m in s;
      } else {
        forall x | x in s ensures LexLe(y, x) {
          if x != y { assert x in rest; LexLeTransitive(y, m, x); } else { LexLeReflexive(y); }
        }
      }
    }
  }

  /** The keys of a store in the order its iterator visits them. */
  ghost function SortedKeys(s: set<Key>): (r: seq<Key>)
    ensures Sorted(r)
    ensures |r| == |s|
    ensures forall k :: k in r <==> k in s
    decreases s
  {
    if s == {} then []
    else
      LeastKeyExists(s);
      var m :| m in s && forall x :: x in s ==> LexLe(m, x);
      var tail := SortedKeys(s - {m});
      assert forall j :: 0 <= j < |tail| ==> LexLe(m, tail[j]);
      [m] + tail
  }
}
