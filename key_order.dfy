/**
 * The order in which catalogue keys are written: JavaScript's default
 * `Array.prototype.sort` on strings, which compares character codes one by
 * one and puts a proper prefix first. `SortKeys` models
 * `Object.keys(messages).sort()`.
 */
module KeyOrder {

  /** Strict lexicographic order on strings. */
  predicate Before(a: string, b: string)
    decreases |a|
  {
    if b == [] then false
    else if a == [] then true
    else if a[0] != b[0] then a[0] < b[0]
    else Before(a[1..], b[1..])
  }

  lemma {:induction false} BeforeIrreflexive(a: string)
    ensures !Before(a, a)
    decreases |a|
  {
    if a != [] {
      BeforeIrreflexive(a[1..]);
    }
  }

  lemma {:induction false} BeforeTransitive(a: string, b: string, c: string)
    requires Before(a, b) && Before(b, c)
    ensures Before(a, c)
    decreases |a|
  {
    if a != [] && a[0] == b[0] && b[0] == c[0] {
      BeforeTransitive(a[1..], b[1..], c[1..]);
    }
  }

  lemma {:induction false} BeforeTotal(a: string, b: string)
    requires a != b
    ensures Before(a, b) || Before(b, a)
    decreases |a|
  {
    if a != [] && b != [] && a[0] == b[0] {
      assert a == [a[0]] + a[1..] && b == [b[0]] + b[1..];
      BeforeTotal(a[1..], b[1..]);
    }
  }

  lemma BeforeAsymmetric(a: string, b: string)
    requires Before(a, b)
    ensures !Before(b, a)
  {
    if Before(b, a) {
      BeforeTransitive(a, b, a);
      BeforeIrreflexive(a);
    }
  }

  /** Every later key comes strictly after every earlier one (so no key repeats). */
  predicate StrictlySorted(s: seq<string>)
  {
    forall i, j :: 0 <= i < j < |s| ==> Before(s[i], s[j])
  }

  /** Inserts a new key at its place in a strictly sorted sequence. */
  function Insert(s: seq<string>, x: string): (r: seq<string>)
    requires StrictlySorted(s) && x !in s
    ensures StrictlySorted(r)
    ensures |r| == |s| + 1
    ensures forall y :: y in r <==> y in s || y == x
  {
    if s == [] then [x]
    else if Before(x, s[0]) then
      assert StrictlySorted([x] + s) by {
        forall j | 0 < j < |s| {
          BeforeTransitive(x, s[0], s[j]);
        }
      }
      [x] + s
    else
      BeforeTotal(x, s[0]);
      var t := Insert(s[1..], x);
      assert StrictlySorted([s[0]] + t) by {
        forall j | 0 <= j < |t| ensures Before(s[0], t[j]) {
          assert t[j] in s[1..] || t[j] == x;
        }
      }
      [s[0]] + t
  }

  /** `m` comes before every other key of `keys`. */
  predicate Least(m: string, keys: set<string>)
  {
    m in keys && forall y :: y in keys && y != m ==> Before(m, y)
  }

  /** Every non-empty finite set of keys has a least key. */
  lemma {:induction false} LeastExists(keys: set<string>)
    requires keys != {}
    ensures exists m :: Least(m, keys)
    decreases |keys|
  {
    var y :| y in keys;
    if keys != {y} {
      var rest := keys - {y};
      LeastExists(rest);
      var m :| Least(m, rest);
      if Before(y, m) {
        forall z | z in keys && z != y ensures Before(y, z) {
          if z != m {
            BeforeTransitive(y, m, z);
          }
        }
        assert Least(y, keys);
      } else {
        BeforeTotal(y, m);
        assert Least(m, keys);
      }
    } else {
      assert Least(y, keys);
    }
  }

  /** The keys of a finite set in ascending order: the least key, then the rest. */
  ghost function SortedSet(keys: set<string>): seq<string>
    decreases |keys|
  {
    if keys == {} then []
    else
      LeastExists(keys);
      var m :| Least(m, keys);
      [m] + SortedSet(keys - {m})
  }

  /** `SortedSet` lists every key once, in ascending order. */
  lemma {:induction false} SortedSetSorted(keys: set<string>)
    ensures StrictlySorted(SortedSet(keys))
    ensures forall y :: y in SortedSet(keys) <==> y in keys
    decreases |keys|
  {
    if keys != {} {
      var s := SortedSet(keys);
      var m := s[0];
      var rest := SortedSet(keys - {m});
      assert Least(m, keys) && s == [m] + rest;
      SortedSetSorted(keys - {m});
      forall i, j | 0 <= i < j < |s| ensures Before(s[i], s[j]) {
        assert s[j] == rest[j - 1] && s[j] in keys - {m};
        if i > 0 {
          assert s[i] == rest[i - 1];
        }
      }
      forall y ensures y in s <==> y in keys {
        assert y in s <==> y == m || y in rest;
      }
    }
  }

  lemma HeadIsLeast(s: seq<string>, y: string)
    requires StrictlySorted(s) && y in s && y != s[0]
    ensures Before(s[0], y)
  {
    var j :| 0 <= j < |s| && s[j] == y;
  }

  lemma SameEmptiness(a: seq<string>, b: seq<string>)
    requires forall y :: y in a <==> y in b
    ensures a == [] <==> b == []
  {
    assert a != [] ==> a[0] in b;
    assert b != [] ==> b[0] in a;
  }

  /**
   * A set of keys has only one strictly sorted arrangement: the sorted output
   * depends on the keys alone, not on the order they were enumerated in.
   */
  lemma {:induction false} SortedUnique(a: seq<string>, b: seq<string>)
    requires StrictlySorted(a) && StrictlySorted(b)
    requires forall y :: y in a <==> y in b
    ensures a == b
    decreases |a|
  {
    SameEmptiness(a, b);
    if a != [] {
      if a[0] != b[0] {
        HeadIsLeast(a, b[0]);
        HeadIsLeast(b, a[0]);
        BeforeAsymmetric(a[0], b[0]);
      }
      forall y ensures y in a[1..] <==> y in b[1..] {
        TailMembers(a, y);
        TailMembers(b, y);
      }
      SortedUnique(a[1..], b[1..]);
      assert a == [a[0]] + a[1..] && b == [b[0]] + b[1..];
    }
  }

  lemma TailMembers(s: seq<string>, y: string)
    requires StrictlySorted(s) && s != []
    ensures y in s[1..] <==> y in s && y != s[0]
  {
    if y in s[1..] {
      var j :| 1 <= j < |s| && s[j] == y;
      BeforeIrreflexive(y);
    }
    if y in s && y != s[0] {
      var j :| 0 <= j < |s| && s[j] == y;
      assert s[1..][j - 1] == y;
    }
  }

  /**
   * `Object.keys(messages).sort()`: the keys are taken in an unspecified
   * enumeration order and each is inserted at its sorted place.
   */
  method SortKeys(messages: map<string, string>) returns (keys: seq<string>)
    ensures StrictlySorted(keys)
    ensures forall k :: k in keys <==> k in messages
    ensures keys == SortedSet(messages.Keys)
  {
    keys := [];
    var rest := messages.Keys;
    while rest != {}
      invariant rest <= messages.Keys
      invariant StrictlySorted(keys)
      invariant forall k :: k in keys <==> k in messages && k !in rest
      decreases |rest|
    {
      var k :| k in rest;
      keys := Insert(keys, k);
      rest := rest - {k};
    }
    SortedSetSorted(messages.Keys);
    SortedUnique(keys, SortedSet(messages.Keys));
  }
}
