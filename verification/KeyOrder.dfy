/** The iteration order of a `std::map` keyed by strings: lexicographic on bytes. */
module KeyOrder {
  /** `a` sorts strictly before `b`. */
  predicate Below(a: string, b: string) {
    b != "" && (a == "" || a[0] < b[0] || (a[0] == b[0] && Below(a[1..], b[1..])))
  }

  /** The shorter one runs out first, or the first bytes that differ decide. */
  ghost predicate Precedes(a: string, b: string) { exists n: nat :: PrecedesAt(a, b, n) }

  predicate PrecedesAt(a: string, b: string, n: nat) {
    n <= |a| && n < |b| && a[..n] == b[..n] && (n == |a| || a[n] < b[n])
  }

  lemma {:induction false} BelowExactly(a: string, b: string)
    ensures Below(a, b) <==> Precedes(a, b)
  {
    if b == "" {
    } else if a == "" {
      assert PrecedesAt(a, b, 0);
    } else if a[0] == b[0] {
      BelowExactly(a[1..], b[1..]);
      PrecedesBehind(a, b);
    } else {
      FirstBytesDiffer(a, b);
    }
  }

  lemma FirstBytesDiffer(a: string, b: string)
    requires a != "" && b != "" && a[0] != b[0]
    ensures Precedes(a, b) <==> a[0] < b[0]
  {
    assert forall n: nat :: PrecedesAt(a, b, n) && n > 0 ==> a[..n][0] == a[0] && b[..n][0] == b[0];
    if a[0] < b[0] {
      assert PrecedesAt(a, b, 0);
    }
  }

  lemma PrecedesBehind(a: string, b: string)
    requires a != "" && b != "" && a[0] == b[0]
    ensures Precedes(a, b) <==> Precedes(a[1..], b[1..])
  {
    if Precedes(a, b) {
      var n: nat :| PrecedesAt(a, b, n);
      assert n > 0;
      assert a[1..][..n - 1] == a[..n][1..] && b[1..][..n - 1] == b[..n][1..];
      assert PrecedesAt(a[1..], b[1..], n - 1);
    }
    if Precedes(a[1..], b[1..]) {
      var n: nat :| PrecedesAt(a[1..], b[1..], n);
      assert a[..n + 1] == [a[0]] + a[1..][..n] && b[..n + 1] == [b[0]] + b[1..][..n];
      assert PrecedesAt(a, b, n + 1);
    }
  }

  lemma {:induction false} BelowIsTotal(a: string, b: string)
    ensures a == b || Below(a, b) || Below(b, a)
  {
    if a != "" && b != "" && a[0] == b[0] {
      BelowIsTotal(a[1..], b[1..]);
      assert a == [a[0]] + a[1..] && b == [b[0]] + b[1..];
    }
  }

  lemma {:induction false} BelowIsTransitive(a: string, b: string, c: string)
    requires Below(a, b) && Below(b, c)
    ensures Below(a, c)
  {
    if a != "" && a[0] == b[0] == c[0] {
      BelowIsTransitive(a[1..], b[1..], c[1..]);
    }
  }

  lemma {:induction false} BelowIsIrreflexive(a: string)
    ensures !Below(a, a)
  {
    if a != "" {
      BelowIsIrreflexive(a[1..]);
    }
  }

  predicate IsLeast(k: string, keys: set<string>) {
    k in keys && forall other :: other in keys ==> other == k || Below(k, other)
  }

  lemma {:induction false} LeastExists(keys: set<string>)
    requires keys != {}
    ensures exists k :: IsLeast(k, keys)
    decreases |keys|
  {
    var k :| k in keys;
    if keys == {k} {
      assert IsLeast(k, keys);
    } else {
      var others := keys - {k};
      assert keys == others + {k};
      LeastExists(others);
      var least :| IsLeast(least, others);
      BelowIsTotal(k, least);
      if Below(least, k) {
        assert IsLeast(least, keys);
      } else {
        forall other | other in keys
          ensures other == k || Below(k, other)
        {
          if other != k && other != least {
            BelowIsTransitive(k, least, other);
          }
        }
        assert IsLeast(k, keys);
      }
    }
  }

  lemma LeastIsUnique(keys: set<string>, k: string, l: string)
    requires IsLeast(k, keys) && IsLeast(l, keys)
    ensures k == l
  {
    if k != l {
      BelowIsTransitive(k, l, k);
      BelowIsIrreflexive(k);
    }
  }

  function Least(keys: set<string>): (k: string)
    requires keys != {}
    ensures IsLeast(k, keys)
  {
    LeastExists(keys);
    assert forall k, l :: IsLeast(k, keys) && IsLeast(l, keys) ==> k == l by {
      forall k, l | IsLeast(k, keys) && IsLeast(l, keys)
        ensures k == l
      {
        LeastIsUnique(keys, k, l);
      }
    }
    var k :| k in keys && IsLeast(k, keys);
    k
  }

  function SortedKeys(keys: set<string>): (s: seq<string>)
    ensures forall k :: k in s <==> k in keys
    decreases |keys|
  {
    if keys == {} then []
    else
      var k := Least(keys);
      var others := keys - {k};
      assert keys == others + {k};
      [k] + SortedKeys(others)
  }

  predicate Ascending(s: seq<string>) { forall i, j :: 0 <= i < j < |s| ==> Below(s[i], s[j]) }

  /** Strictly ascending, by the bytes. */
  ghost predicate InByteOrder(s: seq<string>) { forall i, j :: 0 <= i < j < |s| ==> Precedes(s[i], s[j]) }

  lemma SortedKeysInByteOrder(keys: set<string>)
    ensures InByteOrder(SortedKeys(keys)) && forall k :: k in SortedKeys(keys) <==> k in keys
  {
    var s := SortedKeys(keys);
    SortedKeysAscend(keys);
    forall i, j | 0 <= i < j < |s|
      ensures Precedes(s[i], s[j])
    {
      BelowExactly(s[i], s[j]);
    }
  }

  lemma {:induction false} SortedKeysAscend(keys: set<string>)
    ensures Ascending(SortedKeys(keys))
    decreases |keys|
  {
    if keys != {} {
      var k := Least(keys);
      var others := keys - {k};
      assert keys == others + {k};
      SortedKeysAscend(others);
      var s := SortedKeys(keys);
      assert s[1..] == SortedKeys(others);
      forall i, j | 0 <= i < j < |s|
        ensures Below(s[i], s[j])
      {
        assert s[j] == SortedKeys(others)[j - 1] && s[j] in SortedKeys(others);
        if i > 0 {
          assert s[i] == SortedKeys(others)[i - 1];
        }
      }
    }
  }

  /** An ascending sequence is determined by its elements. */
  lemma {:induction false} AscendingIsUnique(s: seq<string>, t: seq<string>)
    requires Ascending(s) && Ascending(t) && forall k :: k in s <==> k in t
    ensures s == t
  {
    assert t != [] ==> t[0] in t;
    if s != [] {
      assert s[0] in s && s[0] in t;
      assert t[0] in s;
      if s[0] != t[0] {
        BelowIsTransitive(s[0], t[0], s[0]);
        BelowIsIrreflexive(s[0]);
      }
      HeadIsNotInTail(s);
      HeadIsNotInTail(t);
      forall k
        ensures k in s[1..] <==> k in t[1..]
      {
        InHeadOrTail(s, k);
        InHeadOrTail(t, k);
      }
      AscendingIsUnique(s[1..], t[1..]);
      assert s == [s[0]] + s[1..] && t == [t[0]] + t[1..];
    }
  }

  lemma InHeadOrTail(s: seq<string>, k: string)
    requires s != []
    ensures k in s <==> k == s[0] || k in s[1..]
  {
    assert s == [s[0]] + s[1..];
  }

  lemma HeadIsNotInTail(s: seq<string>)
    requires s != [] && Ascending(s)
    ensures s[0] !in s[1..] && Ascending(s[1..])
  {
    if s[0] in s[1..] {
      var i :| 0 <= i < |s[1..]| && s[1..][i] == s[0];
      assert s[i + 1] == s[0];
      BelowIsIrreflexive(s[0]);
    }
  }

  /** The keys in order with one of them passed over. */
  function Omit(s: seq<string>, key: string): seq<string> {
    if s == [] then [] else if s[0] == key then Omit(s[1..], key) else [s[0]] + Omit(s[1..], key)
  }

  lemma {:induction false} OmitAscends(s: seq<string>, key: string)
    requires Ascending(s)
    ensures Ascending(Omit(s, key))
    ensures forall k :: k in Omit(s, key) <==> k in s && k != key
  {
    if s != [] {
      var more := Omit(s[1..], key);
      OmitAscends(s[1..], key);
      assert s == [s[0]] + s[1..];
      if s[0] != key {
        var t := [s[0]] + more;
        forall i, j | 0 <= i < j < |t|
          ensures Below(t[i], t[j])
        {
          assert t[j] == more[j - 1] && t[j] in more;
          if i > 0 {
            assert t[i] == more[i - 1];
          } else {
            var n :| 0 <= n < |s[1..]| && s[1..][n] == t[j];
            assert s[n + 1] == t[j];
          }
        }
      }
    }
  }

  lemma OmitIsRemoval(keys: set<string>, key: string)
    ensures Omit(SortedKeys(keys), key) == SortedKeys(keys - {key})
  {
    SortedKeysAscend(keys);
    SortedKeysAscend(keys - {key});
    OmitAscends(SortedKeys(keys), key);
    AscendingIsUnique(Omit(SortedKeys(keys), key), SortedKeys(keys - {key}));
  }
}
