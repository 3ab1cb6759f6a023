/** The array transforms the pages apply to the lists they hold: `filter`,
    `find`, removal by id, replacement by id and append. */
module Lists {
  import opened Types

  /** `s.filter(p)`: the elements that satisfy `p`, in their order. */
  function Filter<T(!new)>(s: seq<T>, p: T -> bool): (r: seq<T>)
    ensures |r| <= |s|
  {
    if s == [] then [] else (if p(s[0]) then [s[0]] else []) + Filter(s[1..], p)
  }

  /** The filter keeps exactly the elements that satisfy `p`. */
  lemma {:induction false} FilterMembers<T(!new)>(s: seq<T>, p: T -> bool)
    ensures forall x :: x in Filter(s, p) <==> x in s && p(x)
  {
    if s != [] {
      FilterMembers(s[1..], p);
      assert s == [s[0]] + s[1..];
    }
  }

  /** Filtering a concatenation filters each part, so the kept elements
      keep their relative order. */
  lemma {:induction false} FilterAppend<T(!new)>(a: seq<T>, b: seq<T>, p: T -> bool)
    ensures Filter(a + b, p) == Filter(a, p) + Filter(b, p)
  {
    if a == [] {
      assert a + b == b;
    } else {
      var t := a[1..];
      var head := if p(a[0]) then [a[0]] else [];
      assert (a + b)[0] == a[0];
      assert (a + b)[1..] == t + b;
      FilterAppend(t, b, p);
      assert Filter(a + b, p) == head + Filter(t + b, p);
      assert Filter(a, p) == head + Filter(t, p);
    }
  }

  /** A filter that rejects nothing returns the list itself. */
  lemma {:induction false} FilterKeepsAll<T(!new)>(s: seq<T>, p: T -> bool)
    requires forall x :: x in s ==> p(x)
    ensures Filter(s, p) == s
  {
    if s != [] {
      assert s[0] in s;
      forall x | x in s[1..] ensures p(x) {
        assert x in s;
      }
      FilterKeepsAll(s[1..], p);
      assert [s[0]] + s[1..] == s;
    }
  }

  /** A filter that accepts nothing returns the empty list. */
  lemma {:induction false} FilterKeepsNone<T(!new)>(s: seq<T>, p: T -> bool)
    requires forall x :: x in s ==> !p(x)
    ensures Filter(s, p) == []
  {
    if s != [] {
      assert s[0] in s;
      forall x | x in s[1..] ensures !p(x) {
        assert x in s;
      }
      FilterKeepsNone(s[1..], p);
    }
  }

  /** When exactly one position satisfies `p`, the filter keeps that one
      element. */
  lemma {:induction false} FilterSingle<T(!new)>(s: seq<T>, k: nat, p: T -> bool)
    requires k < |s| && p(s[k])
    requires forall i :: 0 <= i < |s| && i != k ==> !p(s[i])
    ensures Filter(s, p) == [s[k]]
  {
    if k == 0 {
      forall x | x in s[1..] ensures !p(x) {
        var i :| 0 <= i < |s| - 1 && s[1..][i] == x;
        assert s[i + 1] == x;
      }
      FilterKeepsNone(s[1..], p);
    } else {
      var t := s[1..];
      assert !p(s[0]);
      forall i | 0 <= i < |t| && i != k - 1 ensures !p(t[i]) {
        assert t[i] == s[i + 1];
      }
      FilterSingle(t, k - 1, p);
      assert Filter(s, p) == Filter(t, p);
    }
  }

  /** When exactly one position fails `p`, the filter drops that element and
      keeps the others in order. */
  lemma {:induction false} FilterDropsOne<T(!new)>(s: seq<T>, k: nat, p: T -> bool)
    requires k < |s| && !p(s[k])
    requires forall i :: 0 <= i < |s| && i != k ==> p(s[i])
    ensures Filter(s, p) == s[..k] + s[k + 1..]
  {
    if k == 0 {
      forall x | x in s[1..] ensures p(x) {
        var i :| 0 <= i < |s| - 1 && s[1..][i] == x;
        assert s[i + 1] == x;
      }
      FilterKeepsAll(s[1..], p);
    } else {
      var t := s[1..];
      assert p(s[0]);
      forall i | 0 <= i < |t| && i != k - 1 ensures p(t[i]) {
        assert t[i] == s[i + 1];
      }
      FilterDropsOne(t, k - 1, p);
      assert Filter(s, p) == [s[0]] + Filter(t, p);
      assert [s[0]] + t[..k - 1] == s[..k];
      assert t[k..] == s[k + 1..];
    }
  }

  /** The index search behind `s.find(p)`: the position of the first element
      that satisfies `p`, or None. */
  function FindIndex<T(!new)>(s: seq<T>, p: T -> bool): (r: Option<nat>)
    ensures r.Some? ==> r.value < |s| && p(s[r.value])
    ensures r.Some? ==> forall j :: 0 <= j < r.value ==> !p(s[j])
    ensures r.None? ==> forall j :: 0 <= j < |s| ==> !p(s[j])
  {
    if s == [] then None
    else if p(s[0]) then Some(0)
    else match FindIndex(s[1..], p)
      case None => None
      case Some(i) => Some(i + 1)
  }

  /** `s.find(p)`, with `undefined` read as None: the first element that
      satisfies `p`. */
  function Find<T(!new)>(s: seq<T>, p: T -> bool): (r: Option<T>)
    ensures r.None? <==> forall x :: x in s ==> !p(x)
    ensures r.Some? ==> exists i :: 0 <= i < |s| && s[i] == r.value && p(s[i]) && forall j :: 0 <= j < i ==> !p(s[j])
  {
    match FindIndex(s, p)
    case None => None
    case Some(i) => Some(s[i])
  }

  /** The keys present in a list. */
  ghost predicate HasKey<T(!new)>(s: seq<T>, id: int, key: T -> int) {
    exists x :: x in s && key(x) == id
  }

  /** `s.filter(x => key(x) !== id)`: removal by id. */
  function RemoveKey<T(!new)>(s: seq<T>, id: int, key: T -> int): (r: seq<T>)
    ensures forall x :: x in r <==> x in s && key(x) != id
  {
    FilterMembers(s, x => key(x) != id);
    Filter(s, x => key(x) != id)
  }

  /** Removal shortens the list exactly when the id is present. */
  lemma RemoveKeyLength<T(!new)>(s: seq<T>, id: int, key: T -> int)
    ensures |RemoveKey(s, id, key)| <= |s|
    ensures |RemoveKey(s, id, key)| == |s| <==> !HasKey(s, id, key)
  {
    if HasKey(s, id, key) {
      var x :| x in s && key(x) == id;
      FilterShorter(s, x => key(x) != id, x);
    } else {
      FilterKeepsAll(s, x => key(x) != id);
    }
  }

  /** A filter that rejects an element of the list shortens it. */
  lemma {:induction false} FilterShorter<T(!new)>(s: seq<T>, p: T -> bool, x: T)
    requires x in s && !p(x)
    ensures |Filter(s, p)| < |s|
  {
    if s[0] != x {
      assert x in s[1..];
      FilterShorter(s[1..], p, x);
    }
  }

  /** `s.map(x => key(x) === id ? v : x)`: replacement by id. */
  function ReplaceKey<T(!new)>(s: seq<T>, id: int, v: T, key: T -> int): (r: seq<T>)
    ensures |r| == |s|
    ensures forall i :: 0 <= i < |s| && key(s[i]) != id ==> r[i] == s[i]
    ensures forall i :: 0 <= i < |s| && key(s[i]) == id ==> r[i] == v
  {
    seq(|s|, i requires 0 <= i < |s| => if key(s[i]) == id then v else s[i])
  }

  /** Removal distributes over concatenation: what is kept keeps its order. */
  lemma RemoveKeyAppend<T(!new)>(a: seq<T>, b: seq<T>, id: int, key: T -> int)
    ensures RemoveKey(a + b, id, key) == RemoveKey(a, id, key) + RemoveKey(b, id, key)
  {
    FilterAppend(a, b, x => key(x) != id);
  }

  /** Deleting what was just appended under a fresh id gives back the list:
      delete undoes create. */
  lemma AppendThenRemove<T(!new)>(s: seq<T>, v: T, key: T -> int)
    requires !HasKey(s, key(v), key)
    ensures RemoveKey(s + [v], key(v), key) == s
  {
    FilterAppend(s, [v], x => key(x) != key(v));
    FilterKeepsAll(s, x => key(x) != key(v));
    assert [v][1..] == [];
  }

  /** With ids unique, deleting the id found at position `k` drops that one
      entry and keeps the others in their order. */
  lemma RemoveKeyAt<T(!new)>(s: seq<T>, k: nat, key: T -> int)
    requires k < |s|
    requires forall i :: 0 <= i < |s| && i != k ==> key(s[i]) != key(s[k])
    ensures RemoveKey(s, key(s[k]), key) == s[..k] + s[k + 1..]
  {
    FilterDropsOne(s, k, x => key(x) != key(s[k]));
  }

  /** Removing an id that is absent leaves the list as it is. */
  lemma RemoveKeyAbsent<T(!new)>(s: seq<T>, id: int, key: T -> int)
    requires forall x :: x in s ==> key(x) != id
    ensures RemoveKey(s, id, key) == s
  {
    FilterKeepsAll(s, x => key(x) != id);
  }

  /** Removing an id after replacing the entries with that id by a value with
      the same id removes the same entries as removing it at once. */
  lemma {:induction false} RemoveAfterReplace<T(!new)>(s: seq<T>, id: int, v: T, key: T -> int)
    requires key(v) == id
    ensures RemoveKey(ReplaceKey(s, id, v, key), id, key) == RemoveKey(s, id, key)
  {
    if s != [] {
      var t := ReplaceKey(s, id, v, key);
      assert t == [t[0]] + t[1..];
      assert s == [s[0]] + s[1..];
      assert t[1..] == ReplaceKey(s[1..], id, v, key);
      RemoveAfterReplace(s[1..], id, v, key);
      RemoveKeyAppend([t[0]], t[1..], id, key);
      RemoveKeyAppend([s[0]], s[1..], id, key);
      assert [t[0]][1..] == [] && [s[0]][1..] == [];
    }
  }

  /** After a replacement with the same id, looking that id up finds the new
      value exactly when the id was present. */
  lemma ReplaceThenFind<T(!new)>(s: seq<T>, id: int, v: T, key: T -> int)
    requires key(v) == id
    ensures Find(ReplaceKey(s, id, v, key), x => key(x) == id) == (if HasKey(s, id, key) then Some(v) else None)
  {
    var t := ReplaceKey(s, id, v, key);
    if HasKey(s, id, key) {
      var x :| x in s && key(x) == id;
      var k :| 0 <= k < |s| && s[k] == x;
      assert t[k] == v;
    } else {
      forall y | y in t ensures key(y) != id {
        var k :| 0 <= k < |t| && t[k] == y;
        assert s[k] in s;
      }
    }
  }
}
