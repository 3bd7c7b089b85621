/**
  Heading-style inference, `identify_heading_styles` in src/round_1a.py: count
  the first-span style signature of every line, set aside the three most
  frequent signatures as body text, and label the three largest of the
  remaining short-line signatures H1, H2 and H3.
 */
module Styles {
  import opened Builtins
  import opened Document

  // ---------------------------------------------------------------------------
  // Counters: Python dicts from signature to count, which remember the order in
  // which their keys were first inserted.
  // ---------------------------------------------------------------------------

  /** A dict from signature to count: its keys in insertion order, and its contents. */
  datatype Counter = Counter(keys: seq<Signature>, count: map<Signature, nat>)

  ghost predicate Valid(c: Counter)
  {
    && (forall i, j :: 0 <= i < j < |c.keys| ==> c.keys[i] != c.keys[j])
    && (forall s :: s in c.count <==> s in c.keys)
  }

  /** Counting one more occurrence of `s`: a new key goes at the end with count 1, a known key's count goes up by one. */
  function Increment(c: Counter, s: Signature): (r: Counter)
    requires Valid(c)
    ensures Valid(r)
  {
    if s in c.count then Counter(c.keys, c.count[s := c.count[s] + 1])
    else Counter(c.keys + [s], c.count[s := 1])
  }

  /** The counter obtained by incrementing an empty dict once per signature of `sigs`, in order. */
  function Tally(sigs: seq<Signature>): (r: Counter)
    ensures Valid(r)
  {
    if sigs == [] then Counter([], map[])
    else Increment(Tally(sigs[..|sigs| - 1]), sigs[|sigs| - 1])
  }

  /** A tally holds exactly the signatures counted, each with its number of occurrences. */
  lemma {:induction false} TallyCounts(sigs: seq<Signature>)
    ensures forall s :: s in Tally(sigs).count <==> s in sigs
    ensures forall s :: s in Tally(sigs).count ==> Tally(sigs).count[s] == multiset(sigs)[s]
  {
    if sigs != [] {
      var front, x := sigs[..|sigs| - 1], sigs[|sigs| - 1];
      TallyCounts(front);
      assert sigs == front + [x];
      assert multiset(sigs) == multiset(front) + multiset{x};
    }
  }

  lemma TallyStep(sigs: seq<Signature>, s: Signature)
    ensures Tally(sigs + [s]) == Increment(Tally(sigs), s)
  {
    assert (sigs + [s])[..|sigs|] == sigs;
  }

  /** The index of the first occurrence of `s` in `sigs`. */
  function FirstIndex(sigs: seq<Signature>, s: Signature): (i: nat)
    requires s in sigs
    ensures i < |sigs| && sigs[i] == s
    ensures forall p :: 0 <= p < i ==> sigs[p] != s
  {
    if sigs[0] == s then 0 else 1 + FirstIndex(sigs[1..], s)
  }

  /** Appending to a sequence leaves the first occurrence of an element already in it where it was. */
  lemma FirstIndexPrefix(front: seq<Signature>, x: Signature, s: Signature)
    requires s in front
    ensures FirstIndex(front + [x], s) == FirstIndex(front, s)
  {
    assert (front + [x])[FirstIndex(front, s)] == s;
  }

  /** A dict's keys are in the order of their first insertion. */
  lemma {:induction false} TallyOrder(sigs: seq<Signature>)
    ensures forall i :: 0 <= i < |Tally(sigs).keys| ==> Tally(sigs).keys[i] in sigs
    ensures forall i, j :: 0 <= i < j < |Tally(sigs).keys| ==>
              FirstIndex(sigs, Tally(sigs).keys[i]) < FirstIndex(sigs, Tally(sigs).keys[j])
  {
    if sigs != [] {
      var front, x := sigs[..|sigs| - 1], sigs[|sigs| - 1];
      assert sigs == front + [x];
      TallyOrder(front);
      TallyCounts(front);
      TallyStep(front, x);
      KeysOrderStep(Tally(front), front, x);
    }
  }

  /** Incrementing a dict whose keys are in first-insertion order keeps them so. */
  lemma KeysOrderStep(c: Counter, front: seq<Signature>, x: Signature)
    requires Valid(c) && forall s :: s in c.count <==> s in front
    requires forall i :: 0 <= i < |c.keys| ==> c.keys[i] in front
    requires forall i, j :: 0 <= i < j < |c.keys| ==> FirstIndex(front, c.keys[i]) < FirstIndex(front, c.keys[j])
    ensures forall i :: 0 <= i < |Increment(c, x).keys| ==> Increment(c, x).keys[i] in front + [x]
    ensures forall i, j :: 0 <= i < j < |Increment(c, x).keys| ==>
              FirstIndex(front + [x], Increment(c, x).keys[i]) < FirstIndex(front + [x], Increment(c, x).keys[j])
  {
    var sigs := front + [x];
    var keys := Increment(c, x).keys;
    assert keys == if x in front then c.keys else c.keys + [x];
    forall i | 0 <= i < |keys| ensures keys[i] in sigs {
      if i < |c.keys| {
        assert keys[i] == c.keys[i];
      }
    }
    forall i, j | 0 <= i < j < |keys| ensures FirstIndex(sigs, keys[i]) < FirstIndex(sigs, keys[j]) {
      assert keys[i] == c.keys[i];
      FirstIndexPrefix(front, x, c.keys[i]);
      if j < |c.keys| {
        assert keys[j] == c.keys[j];
        FirstIndexPrefix(front, x, c.keys[j]);
      } else {
        assert keys[j] == x && x !in front;
        assert FirstIndex(sigs, x) == |front|;
      }
    }
  }

  /** A dict entry `(signature, count)`, as `dict.items()` yields it. */
  datatype Item = Item(sig: Signature, count: nat)

  /** `c.items()`, in insertion order. */
  function Items(c: Counter): (r: seq<Item>)
    requires Valid(c)
    ensures |r| == |c.keys|
  {
    seq(|c.keys|, i requires 0 <= i < |c.keys| => Item(c.keys[i], c.count[c.keys[i]]))
  }

  ghost predicate DistinctSigs(s: seq<Item>)
  {
    forall i, j :: 0 <= i < |s| && 0 <= j < |s| && i != j ==> s[i].sig != s[j].sig
  }

  /** The items of a dict are its entries, each key once. */
  lemma ItemsFacts(c: Counter)
    requires Valid(c)
    ensures DistinctSigs(Items(c))
    ensures forall x :: x in Items(c) <==> x.sig in c.count && x.count == c.count[x.sig]
  {
    var r := Items(c);
    forall x: Item | x.sig in c.count && x.count == c.count[x.sig] ensures x in r {
      var i :| 0 <= i < |c.keys| && c.keys[i] == x.sig;
      assert r[i] == x;
    }
  }

  // ---------------------------------------------------------------------------
  // Python's `sorted(..., key=..., reverse=True)`: a stable sort into
  // descending key order, modelled here as an insertion sort.
  // ---------------------------------------------------------------------------

  /** The two sort keys of identify_heading_styles: the count, and the pair (size, count). */
  datatype SortKey = ByCount | BySizeThenCount

  /** The key of `a` is at least the key of `b`. */
  predicate AtLeast(key: SortKey, a: Item, b: Item)
  {
    match key
    case ByCount => a.count >= b.count
    case BySizeThenCount => a.sig.size > b.sig.size || (a.sig.size == b.sig.size && a.count >= b.count)
  }

  ghost predicate Sorted(s: seq<Item>, key: SortKey)
  {
    forall i, j :: 0 <= i < j < |s| ==> AtLeast(key, s[i], s[j])
  }

  /** Where `x` goes in `s`: after every element whose key is at least that of `x`. */
  function InsertPos(s: seq<Item>, x: Item, key: SortKey): (p: nat)
    ensures p <= |s|
    ensures p < |s| ==> !AtLeast(key, s[p], x)
    ensures p > 0 ==> AtLeast(key, s[p - 1], x)
  {
    if s == [] || AtLeast(key, s[|s| - 1], x) then |s| else InsertPos(s[..|s| - 1], x, key)
  }

  function Insert(s: seq<Item>, x: Item, key: SortKey): seq<Item>
  {
    var p := InsertPos(s, x, key);
    s[..p] + [x] + s[p..]
  }

  function Sort(s: seq<Item>, key: SortKey): seq<Item>
  {
    if s == [] then [] else Insert(Sort(s[..|s| - 1], key), s[|s| - 1], key)
  }

  /** The key order is transitive. */
  lemma AtLeastTrans(key: SortKey, a: Item, b: Item, c: Item)
    requires AtLeast(key, a, b) && AtLeast(key, b, c)
    ensures AtLeast(key, a, c)
  {
  }

  /** In a sorted sequence the insertion point separates the keys at least `x`'s from the smaller ones. */
  lemma {:induction false} InsertPosSplits(s: seq<Item>, x: Item, key: SortKey)
    requires Sorted(s, key)
    ensures forall i :: 0 <= i < InsertPos(s, x, key) ==> AtLeast(key, s[i], x)
    ensures forall i :: InsertPos(s, x, key) <= i < |s| ==> AtLeast(key, x, s[i]) && !AtLeast(key, s[i], x)
  {
    if s == [] {
    } else if AtLeast(key, s[|s| - 1], x) {
      forall i | 0 <= i < |s| ensures AtLeast(key, s[i], x) {
        if i < |s| - 1 {
          AtLeastTrans(key, s[i], s[|s| - 1], x);
        }
      }
    } else {
      var front := s[..|s| - 1];
      assert Sorted(front, key) by {
        forall i, j | 0 <= i < j < |front| ensures AtLeast(key, front[i], front[j]) {
          assert front[i] == s[i] && front[j] == s[j];
        }
      }
      InsertPosSplits(front, x, key);
      assert InsertPos(s, x, key) == InsertPos(front, x, key);
      assert forall i :: 0 <= i < |front| ==> front[i] == s[i];
    }
  }

  /** Inserting into a sorted sequence keeps it sorted and adds exactly the one element. */
  lemma InsertFacts(t: seq<Item>, x: Item, key: SortKey)
    requires Sorted(t, key)
    ensures |Insert(t, x, key)| == |t| + 1
    ensures multiset(Insert(t, x, key)) == multiset(t) + multiset{x}
    ensures Sorted(Insert(t, x, key), key)
  {
    InsertPerm(t, x, key);
    InsertSorted(t, x, key);
  }

  /** The permutation half of InsertFacts. */
  lemma InsertPerm(t: seq<Item>, x: Item, key: SortKey)
    ensures |Insert(t, x, key)| == |t| + 1
    ensures multiset(Insert(t, x, key)) == multiset(t) + multiset{x}
  {
    var p := InsertPos(t, x, key);
    var a, b := t[..p], t[p..];
    assert Insert(t, x, key) == a + [x] + b;
    assert t == a + b;
  }

  /** The sortedness half of InsertFacts. */
  lemma InsertSorted(t: seq<Item>, x: Item, key: SortKey)
    requires Sorted(t, key)
    ensures Sorted(Insert(t, x, key), key)
  {
    var p := InsertPos(t, x, key);
    InsertPosSplits(t, x, key);
    var r := t[..p] + [x] + t[p..];
    assert forall k :: 0 <= k < p ==> r[k] == t[k];
    assert r[p] == x;
    assert forall k :: p < k < |r| ==> r[k] == t[k - 1];
    forall i, j | 0 <= i < j < |r| ensures AtLeast(key, r[i], r[j]) {
      if j < p {
        assert AtLeast(key, t[i], t[j]);
      } else if j == p {
        assert AtLeast(key, t[i], x);
      } else if i == p {
        assert AtLeast(key, x, t[j - 1]);
      } else if i < p {
        assert AtLeast(key, t[i], t[j - 1]);
      } else {
        assert AtLeast(key, t[i - 1], t[j - 1]);
      }
    }
  }

  /**
    The sort yields a sorted permutation of its input: the same elements, with
    the same multiplicities, in descending key order.
   */
  lemma {:induction false} SortFacts(s: seq<Item>, key: SortKey)
    ensures |Sort(s, key)| == |s|
    ensures multiset(Sort(s, key)) == multiset(s)
    ensures Sorted(Sort(s, key), key)
    ensures DistinctSigs(s) ==> DistinctSigs(Sort(s, key))
  {
    if s != [] {
      var front, x := s[..|s| - 1], s[|s| - 1];
      SortFacts(front, key);
      InsertFacts(Sort(front, key), x, key);
      assert s == front + [x];
    }
    if DistinctSigs(s) {
      SigsOfPermutation(Sort(s, key), s);
    }
  }

  /** A permutation of a sequence of distinct signatures has distinct signatures as well. */
  lemma SigsOfPermutation(t: seq<Item>, s: seq<Item>)
    requires multiset(t) == multiset(s) && DistinctSigs(s)
    ensures DistinctSigs(t)
  {
    forall i, j | 0 <= i < |t| && 0 <= j < |t| && i != j ensures t[i].sig != t[j].sig {
      if t[i].sig == t[j].sig {
        assert t[i] in multiset(s) && t[j] in multiset(s);
        var a :| 0 <= a < |s| && s[a] == t[i];
        var b :| 0 <= b < |s| && s[b] == t[j];
        assert a == b;
        assert t[i] == t[j];
        MultiplicityTwo(t, i, j);
        DistinctOnce(s, a);
        assert false;
      }
    }
  }

  lemma MultiplicityTwo(t: seq<Item>, i: nat, j: nat)
    requires i < j < |t| || j < i < |t|
    requires t[i] == t[j]
    ensures multiset(t)[t[i]] >= 2
  {
    var lo, hi := if i < j then i else j, if i < j then j else i;
    assert t == t[..lo] + [t[lo]] + t[lo + 1..hi] + [t[hi]] + t[hi + 1..];
  }

  lemma DistinctOnce(s: seq<Item>, a: nat)
    requires a < |s| && DistinctSigs(s)
    ensures multiset(s)[s[a]] == 1
  {
    var rest := s[..a] + s[a + 1..];
    assert s == s[..a] + [s[a]] + s[a + 1..];
    forall k | 0 <= k < |rest| ensures rest[k] != s[a] {
      if k < a { assert rest[k] == s[k]; }
      else { assert rest[k] == s[k + 1]; }
    }
    assert s[a] !in multiset(rest);
    assert multiset(s) == multiset(rest) + multiset{s[a]};
  }

  /** `a` and `b` have equal keys: neither sorts strictly before the other. */
  predicate SameKey(key: SortKey, a: Item, b: Item)
  {
    AtLeast(key, a, b) && AtLeast(key, b, a)
  }

  /** The elements of `s` whose key equals that of `x`, in their order in `s`. */
  function KeyClass(s: seq<Item>, key: SortKey, x: Item): seq<Item>
  {
    if s == [] then []
    else KeyClass(s[..|s| - 1], key, x) + (if SameKey(key, s[|s| - 1], x) then [s[|s| - 1]] else [])
  }

  lemma {:induction false} KeyClassAppend(a: seq<Item>, b: seq<Item>, key: SortKey, x: Item)
    ensures KeyClass(a + b, key, x) == KeyClass(a, key, x) + KeyClass(b, key, x)
  {
    if b == [] {
      assert a + b == a;
    } else {
      var front := b[..|b| - 1];
      KeyClassAppend(a, front, key, x);
      assert (a + b)[..|a + b| - 1] == a + front;
      assert (a + b)[|a + b| - 1] == b[|b| - 1];
    }
  }

  lemma {:induction false} KeyClassNone(s: seq<Item>, key: SortKey, x: Item)
    requires forall i :: 0 <= i < |s| ==> !SameKey(key, s[i], x)
    ensures KeyClass(s, key, x) == []
  {
    if s != [] {
      KeyClassNone(s[..|s| - 1], key, x);
    }
  }

  /** Inserting `y` into a sorted sequence puts it after every element with the same key. */
  lemma InsertStable(t: seq<Item>, y: Item, key: SortKey, x: Item)
    requires Sorted(t, key)
    ensures KeyClass(Insert(t, y, key), key, x) == KeyClass(t, key, x) + KeyClass([y], key, x)
  {
    var p := InsertPos(t, y, key);
    assert Insert(t, y, key) == t[..p] + [y] + t[p..];
    assert t == t[..p] + t[p..];
    if SameKey(key, y, x) {
      ClassAfterInsertPos(t, y, key, x);
    }
    KeyClassSplice(t[..p], y, t[p..], key, x);
  }

  /** Putting `y` between `a` and `b` moves it to the end of its class when `b` has none of its class. */
  lemma KeyClassSplice(a: seq<Item>, y: Item, b: seq<Item>, key: SortKey, x: Item)
    requires SameKey(key, y, x) ==> KeyClass(b, key, x) == []
    ensures KeyClass(a + [y] + b, key, x) == KeyClass(a + b, key, x) + KeyClass([y], key, x)
  {
    KeyClassAppend(a + [y], b, key, x);
    KeyClassAppend(a, [y], key, x);
    KeyClassAppend(a, b, key, x);
    var ka, ky, kb := KeyClass(a, key, x), KeyClass([y], key, x), KeyClass(b, key, x);
    if SameKey(key, y, x) {
      assert ka + ky + kb == ka + ky;
    } else {
      assert ky == [];
      assert ka + ky + kb == ka + kb + ky;
    }
  }

  /** No element after the insertion point of `y` has the key of `y`. */
  lemma ClassAfterInsertPos(t: seq<Item>, y: Item, key: SortKey, x: Item)
    requires Sorted(t, key) && SameKey(key, y, x)
    ensures KeyClass(t[InsertPos(t, y, key)..], key, x) == []
  {
    var p := InsertPos(t, y, key);
    var b := t[p..];
    InsertPosSplits(t, y, key);
    forall i | 0 <= i < |b| ensures !SameKey(key, b[i], x) {
      assert b[i] == t[p + i];
      if SameKey(key, b[i], x) {
        AtLeastTrans(key, b[i], x, y);
      }
    }
    KeyClassNone(b, key, x);
  }

  /**
    The sort is stable: the elements with any one key come out in the order in
    which they went in.
   */
  lemma {:induction false} SortStable(s: seq<Item>, key: SortKey, x: Item)
    ensures KeyClass(Sort(s, key), key, x) == KeyClass(s, key, x)
  {
    if s != [] {
      var front, y := s[..|s| - 1], s[|s| - 1];
      SortStable(front, key, x);
      assert Sorted(Sort(front, key), key) by { SortFacts(front, key); }
      InsertStable(Sort(front, key), y, key, x);
      assert s == front + [y];
      KeyClassAppend(front, [y], key, x);
    }
  }

  /** `u` occurs in `s` somewhere before an occurrence of `v`. */
  ghost predicate Precedes(s: seq<Item>, u: Item, v: Item)
  {
    exists i, j :: 0 <= i < j < |s| && s[i] == u && s[j] == v
  }

  lemma {:induction false} KeyClassMember(s: seq<Item>, key: SortKey, x: Item, u: Item)
    requires SameKey(key, u, x)
    ensures u in KeyClass(s, key, x) <==> u in s
  {
    if s != [] {
      KeyClassMember(s[..|s| - 1], key, x, u);
      assert s == s[..|s| - 1] + [s[|s| - 1]];
    }
  }

  lemma PrecedesSnoc(front: seq<Item>, y: Item, u: Item, v: Item)
    ensures Precedes(front + [y], u, v) <==> Precedes(front, u, v) || (y == v && u in front)
  {
    var s := front + [y];
    if Precedes(s, u, v) {
      var i, j :| 0 <= i < j < |s| && s[i] == u && s[j] == v;
      assert front[i] == u;
      if j < |front| {
        assert front[j] == v;
      }
    }
    if Precedes(front, u, v) {
      var i, j :| 0 <= i < j < |front| && front[i] == u && front[j] == v;
      assert s[i] == u && s[j] == v;
    }
    if y == v && u in front {
      var i :| 0 <= i < |front| && front[i] == u;
      assert s[i] == u && s[|front|] == v;
    }
  }

  /** Two elements of one key class are in the same order in a sequence as in that class of it. */
  lemma {:induction false} KeyClassPrecedes(s: seq<Item>, key: SortKey, x: Item, u: Item, v: Item)
    requires SameKey(key, u, x) && SameKey(key, v, x)
    ensures Precedes(s, u, v) <==> Precedes(KeyClass(s, key, x), u, v)
  {
    if s != [] {
      var front, y := s[..|s| - 1], s[|s| - 1];
      assert s == front + [y];
      KeyClassPrecedes(front, key, x, u, v);
      KeyClassMember(front, key, x, u);
      PrecedesSnoc(front, y, u, v);
      if SameKey(key, y, x) {
        assert KeyClass(s, key, x) == KeyClass(front, key, x) + [y];
        PrecedesSnoc(KeyClass(front, key, x), y, u, v);
      } else {
        assert KeyClass(s, key, x) == KeyClass(front, key, x);
        assert y != v;
      }
    }
  }

  /**
    The tie-break of both `sorted` calls of identify_heading_styles: among the
    items of a counter, sorted by either key, of two entries with equal keys
    the one whose signature was counted first comes first.
   */
  lemma SortTieBreak(sigs: seq<Signature>, key: SortKey)
    ensures forall a :: 0 <= a < |Sort(Items(Tally(sigs)), key)| ==> Sort(Items(Tally(sigs)), key)[a].sig in sigs
    ensures forall a, b ::
              (0 <= a < b < |Sort(Items(Tally(sigs)), key)| &&
               SameKey(key, Sort(Items(Tally(sigs)), key)[a], Sort(Items(Tally(sigs)), key)[b])) ==>
              FirstIndex(sigs, Sort(Items(Tally(sigs)), key)[a].sig) < FirstIndex(sigs, Sort(Items(Tally(sigs)), key)[b].sig)
  {
    var r := Sort(Items(Tally(sigs)), key);
    forall a | 0 <= a < |r| ensures r[a].sig in sigs {
      SortedSigCounted(sigs, key, a);
    }
    forall a, b | 0 <= a < b < |r| && SameKey(key, r[a], r[b])
      ensures FirstIndex(sigs, r[a].sig) < FirstIndex(sigs, r[b].sig)
    {
      TiePair(sigs, key, a, b);
    }
  }

  /** Every sorted entry of a tally is a counted signature. */
  lemma SortedSigCounted(sigs: seq<Signature>, key: SortKey, a: nat)
    requires a < |Sort(Items(Tally(sigs)), key)|
    ensures Sort(Items(Tally(sigs)), key)[a].sig in sigs
  {
    var items := Items(Tally(sigs));
    var r := Sort(items, key);
    SortFacts(items, key);
    assert r[a] in multiset(items);
    var i :| 0 <= i < |items| && items[i] == r[a];
    TallyOrder(sigs);
  }

  /** One pair of SortTieBreak. */
  lemma TiePair(sigs: seq<Signature>, key: SortKey, a: nat, b: nat)
    requires a < b < |Sort(Items(Tally(sigs)), key)|
    requires SameKey(key, Sort(Items(Tally(sigs)), key)[a], Sort(Items(Tally(sigs)), key)[b])
    requires Sort(Items(Tally(sigs)), key)[a].sig in sigs && Sort(Items(Tally(sigs)), key)[b].sig in sigs
    ensures FirstIndex(sigs, Sort(Items(Tally(sigs)), key)[a].sig) < FirstIndex(sigs, Sort(Items(Tally(sigs)), key)[b].sig)
  {
    var c := Tally(sigs);
    var items := Items(c);
    var r := Sort(items, key);
    var u, v := r[a], r[b];
    assert Precedes(r, u, v);
    KeyClassPrecedes(r, key, u, u, v);
    SortStable(items, key, u);
    KeyClassPrecedes(items, key, u, u, v);
    var i, j :| 0 <= i < j < |items| && items[i] == u && items[j] == v;
    TallyOrder(sigs);
    assert c.keys[i] == u.sig && c.keys[j] == v.sig;
  }

  /** The first three entries of a sorted sequence, `sorted(...)[:3]`. */
  function Top3(s: seq<Item>): (r: seq<Item>)
    ensures |r| == Min(3, |s|)
  {
    s[..Min(3, |s|)]
  }

  function SigsOf(s: seq<Item>): set<Signature>
  {
    set i | 0 <= i < |s| :: s[i].sig
  }

  /** The first three entries keep their places, and their signatures are the signatures of Top3. */
  lemma TopSigs(r: seq<Item>)
    ensures forall k :: 0 <= k < |Top3(r)| ==> Top3(r)[k] == r[k] && r[k].sig in SigsOf(Top3(r))
  {
    var top := Top3(r);
    forall k | 0 <= k < |top| ensures top[k] == r[k] && r[k].sig in SigsOf(top) {
      assert top[k].sig in SigsOf(top);
    }
  }

  /**
    In a sorted permutation of `items`, each of the first three ranks at least
    as high as every item whose signature is not among the first three.
   */
  lemma TopDominates(items: seq<Item>, key: SortKey)
    ensures forall x :: x in items && x.sig !in SigsOf(Top3(Sort(items, key))) ==>
              forall i :: 0 <= i < |Top3(Sort(items, key))| ==> AtLeast(key, Top3(Sort(items, key))[i], x)
  {
    var top := Top3(Sort(items, key));
    forall x | x in items && x.sig !in SigsOf(top)
      ensures forall i :: 0 <= i < |top| ==> AtLeast(key, top[i], x)
    {
      TopDominatesOne(items, key, x);
    }
  }

  /** TopDominates for one item. */
  lemma TopDominatesOne(items: seq<Item>, key: SortKey, x: Item)
    requires x in items && x.sig !in SigsOf(Top3(Sort(items, key)))
    ensures forall i :: 0 <= i < |Top3(Sort(items, key))| ==> AtLeast(key, Top3(Sort(items, key))[i], x)
  {
    var r := Sort(items, key);
    var top := Top3(r);
    assert multiset(r) == multiset(items) && Sorted(r, key) by { SortFacts(items, key); }
    assert x in multiset(r);
    var j :| 0 <= j < |r| && r[j] == x;
    TopSigs(r);
    assert j >= |top|;
    forall i | 0 <= i < |top| ensures AtLeast(key, top[i], x) {
      assert top[i] == r[i];
    }
  }

  // ---------------------------------------------------------------------------
  // The two counting passes over the document.
  // ---------------------------------------------------------------------------

  /** The first-span signatures of the lines that have spans, in walk order. */
  function StyleSigs(ls: seq<Located>): seq<Signature>
  {
    if ls == [] then []
    else
      var line := ls[|ls| - 1].line;
      StyleSigs(ls[..|ls| - 1]) + (if line.spans != [] then [SignatureOf(line.spans[0])] else [])
  }

  /** `style_counter` after the first pass. */
  function StyleCounts(ls: seq<Located>): Counter
  {
    Tally(StyleSigs(ls))
  }

  /** A line that counts towards `sig` as a heading candidate in the second pass. */
  predicate IsCandidateLine(line: Line, common: set<Signature>, sig: Signature)
  {
    && line.spans != []
    && SignatureOf(line.spans[0]) == sig
    && sig !in common
    && LineText(line) != []
    && |LineText(line)| < 150
  }

  /** The signatures the second pass counts, in walk order. */
  function CandidateSigs(ls: seq<Located>, common: set<Signature>): seq<Signature>
  {
    if ls == [] then []
    else
      var line := ls[|ls| - 1].line;
      CandidateSigs(ls[..|ls| - 1], common) +
        (if line.spans != [] && IsCandidateLine(line, common, SignatureOf(line.spans[0]))
         then [SignatureOf(line.spans[0])] else [])
  }

  /** `heading_candidates` after the second pass. */
  function CandidateCounts(ls: seq<Located>, common: set<Signature>): Counter
  {
    Tally(CandidateSigs(ls, common))
  }

  ghost predicate HasCandidateLine(ls: seq<Located>, common: set<Signature>, sig: Signature)
  {
    exists i :: 0 <= i < |ls| && IsCandidateLine(ls[i].line, common, sig)
  }

  lemma HasCandidateLineStep(front: seq<Located>, last: Located, common: set<Signature>, sig: Signature)
    ensures HasCandidateLine(front + [last], common, sig) <==>
              HasCandidateLine(front, common, sig) || IsCandidateLine(last.line, common, sig)
  {
    var ls := front + [last];
    if HasCandidateLine(front, common, sig) {
      var i :| 0 <= i < |front| && IsCandidateLine(front[i].line, common, sig);
      assert ls[i] == front[i];
    }
    if IsCandidateLine(last.line, common, sig) {
      assert ls[|front|] == last;
    }
    if HasCandidateLine(ls, common, sig) {
      var i :| 0 <= i < |ls| && IsCandidateLine(ls[i].line, common, sig);
      if i < |front| { assert front[i] == ls[i]; }
    }
  }

  lemma StyleCountsStep(before: seq<Located>, x: Located)
    ensures StyleCounts(before + [x]) ==
      if x.line.spans == [] then StyleCounts(before) else Increment(StyleCounts(before), SignatureOf(x.line.spans[0]))
  {
    assert (before + [x])[..|before|] == before;
    if x.line.spans != [] {
      assert StyleSigs(before + [x]) == StyleSigs(before) + [SignatureOf(x.line.spans[0])];
      TallyStep(StyleSigs(before), SignatureOf(x.line.spans[0]));
    } else {
      assert StyleSigs(before + [x]) == StyleSigs(before);
    }
  }

  lemma CandidateCountsStep(before: seq<Located>, x: Located, common: set<Signature>)
    ensures CandidateCounts(before + [x], common) ==
      if x.line.spans != [] && IsCandidateLine(x.line, common, SignatureOf(x.line.spans[0]))
      then Increment(CandidateCounts(before, common), SignatureOf(x.line.spans[0]))
      else CandidateCounts(before, common)
  {
    assert (before + [x])[..|before|] == before;
    if x.line.spans != [] && IsCandidateLine(x.line, common, SignatureOf(x.line.spans[0])) {
      assert CandidateSigs(before + [x], common) == CandidateSigs(before, common) + [SignatureOf(x.line.spans[0])];
      TallyStep(CandidateSigs(before, common), SignatureOf(x.line.spans[0]));
    } else {
      assert CandidateSigs(before + [x], common) == CandidateSigs(before, common);
    }
  }

  /** A signature is counted by the second pass exactly when some line is a candidate line for it. */
  lemma {:induction false} CandidateSigsLines(ls: seq<Located>, common: set<Signature>)
    ensures forall sig :: sig in CandidateSigs(ls, common) <==> HasCandidateLine(ls, common, sig)
  {
    if ls != [] {
      var front, last := ls[..|ls| - 1], ls[|ls| - 1];
      CandidateSigsLines(front, common);
      assert ls == front + [last];
      forall sig ensures sig in CandidateSigs(ls, common) <==> HasCandidateLine(ls, common, sig) {
        HasCandidateLineStep(front, last, common, sig);
      }
    }
  }

  /** The first pass counts, for every signature, the lines with spans whose first span has it. */
  lemma StyleCountsFacts(ls: seq<Located>)
    ensures Valid(StyleCounts(ls))
    ensures forall s :: s in StyleCounts(ls).count <==> s in StyleSigs(ls)
    ensures forall s :: s in StyleCounts(ls).count ==> StyleCounts(ls).count[s] == multiset(StyleSigs(ls))[s]
  {
    TallyCounts(StyleSigs(ls));
  }

  /** The second pass counts a signature exactly when some line is a candidate line for it. */
  lemma CandidateCountsFacts(ls: seq<Located>, common: set<Signature>)
    ensures Valid(CandidateCounts(ls, common))
    ensures forall s :: s in CandidateCounts(ls, common).count <==> HasCandidateLine(ls, common, s)
    ensures forall s :: s in CandidateCounts(ls, common).count ==>
              CandidateCounts(ls, common).count[s] == multiset(CandidateSigs(ls, common))[s]
  {
    TallyCounts(CandidateSigs(ls, common));
    CandidateSigsLines(ls, common);
  }

  /** `common_styles`: the signatures of the three most frequent entries (none if the counter is empty). */
  function CommonStyles(c: Counter): set<Signature>
    requires Valid(c)
  {
    SigsOf(Top3(Sort(Items(c), ByCount)))
  }

  /** The level map after labelling the first `n` sorted entries with levels 1..n, in that order. */
  function LevelMap(s: seq<Item>, n: nat): map<Signature, int>
    requires n <= |s|
  {
    if n == 0 then map[] else LevelMap(s, n - 1)[s[n - 1].sig := n]
  }

  /** For distinct signatures the assignments never overwrite: the i-th signature gets level i + 1. */
  lemma {:induction false} LevelMapFacts(s: seq<Item>, n: nat)
    requires n <= |s| && DistinctSigs(s)
    ensures |LevelMap(s, n)| == n
    ensures forall i :: 0 <= i < n ==> s[i].sig in LevelMap(s, n) && LevelMap(s, n)[s[i].sig] == i + 1
    ensures forall k :: k in LevelMap(s, n) ==> exists i :: 0 <= i < n && s[i].sig == k
  {
    if n > 0 {
      LevelMapFacts(s, n - 1);
      var m := LevelMap(s, n - 1);
      var x := s[n - 1].sig;
      forall k | k in m ensures k != x {
        var i :| 0 <= i < n - 1 && s[i].sig == k;
      }
      assert LevelMap(s, n) == m[x := n];
    }
  }

  /** Each labelled signature sits at the index its level names, and the levels run 1..n. */
  lemma LevelMapIndex(r: seq<Item>, n: nat, s: Signature) returns (i: nat)
    requires n <= |r| && DistinctSigs(r) && s in LevelMap(r, n)
    ensures i < n && r[i].sig == s && LevelMap(r, n)[s] == i + 1
  {
    LevelMapFacts(r, n);
    i :| 0 <= i < n && r[i].sig == s;
  }

  /** The level map of the heading candidates: H1..H3 to the top three by (size, count). */
  function SelectLevels(candidates: Counter): map<Signature, int>
    requires Valid(candidates)
  {
    var sorted := Sort(Items(candidates), BySizeThenCount);
    LevelMap(sorted, Min(3, |sorted|))
  }

  /** `common_styles` of a document. */
  function BodyStyles(doc: seq<Page>): set<Signature>
  {
    CommonStyles(StyleCounts(DocLines(doc)))
  }

  /** `heading_candidates` of a document. */
  function HeadingCandidates(doc: seq<Page>): (c: Counter)
    ensures Valid(c)
  {
    CandidateCounts(DocLines(doc), BodyStyles(doc))
  }

  /** What `identify_heading_styles(doc)` returns; a level n stands for the label "H{n}". */
  function HeadingStyles(doc: seq<Page>): map<Signature, int>
  {
    SelectLevels(HeadingCandidates(doc))
  }

  // ---------------------------------------------------------------------------
  // The passes as the source runs them.
  // ---------------------------------------------------------------------------

  /** One line of the first pass, in the branches the pass takes on it. */
  lemma StyleLineStep(before: seq<Located>, p: nat, line: Line)
    ensures line.spans == [] ==> StyleCounts(before + [Located(p, line)]) == StyleCounts(before)
    ensures line.spans != [] ==>
              StyleCounts(before + [Located(p, line)]) == Increment(StyleCounts(before), SignatureOf(line.spans[0]))
  {
    StyleCountsStep(before, Located(p, line));
  }

  /** One line of the second pass, in the branches the pass takes on it. */
  lemma CandidateLineStep(before: seq<Located>, p: nat, line: Line, common: set<Signature>)
    ensures line.spans == [] ==> CandidateCounts(before + [Located(p, line)], common) == CandidateCounts(before, common)
    ensures line.spans != [] && SignatureOf(line.spans[0]) in common ==>
              CandidateCounts(before + [Located(p, line)], common) == CandidateCounts(before, common)
    ensures line.spans != [] && SignatureOf(line.spans[0]) !in common && !(LineText(line) != [] && |LineText(line)| < 150) ==>
              CandidateCounts(before + [Located(p, line)], common) == CandidateCounts(before, common)
    ensures line.spans != [] && SignatureOf(line.spans[0]) !in common && LineText(line) != [] && |LineText(line)| < 150 ==>
              CandidateCounts(before + [Located(p, line)], common) ==
              Increment(CandidateCounts(before, common), SignatureOf(line.spans[0]))
  {
    CandidateCountsStep(before, Located(p, line), common);
  }

  /** The first loop nest of identify_heading_styles: `style_counter[signature] += 1` per line with spans. */
  method CountStyles(doc: seq<Page>) returns (counter: Counter)
    ensures counter == StyleCounts(DocLines(doc))
  {
    counter := Counter([], map[]);
    for i := 0 to |doc|
      invariant counter == StyleCounts(DocLines(doc[..i]))
    {
      var blocks := doc[i].blocks;
      VisitedStart(doc, i);
      for j := 0 to |blocks|
        invariant counter == StyleCounts(Visited(doc, i, j))
      {
        if blocks[j].kind != 0 {
          VisitedSkip(doc, i, j);
          continue;
        }
        var lines := blocks[j].lines;
        WalkedStart(doc, i, j);
        for k := 0 to |lines|
          invariant counter == StyleCounts(Walked(doc, i, j, k))
        {
          WalkedStep(doc, i, j, k);
          StyleLineStep(Walked(doc, i, j, k), i, lines[k]);
          if lines[k].spans == [] {
            continue;
          }
          var signature := SignatureOf(lines[k].spans[0]);
          counter := Increment(counter, signature);
        }
        WalkedEnd(doc, i, j);
      }
      VisitedEnd(doc, i);
    }
    assert doc[..|doc|] == doc;
  }

  /**
    The second loop nest: count, per signature outside `common`, the lines
    whose stripped text is non-empty and shorter than 150 characters.
   */
  method CountCandidates(doc: seq<Page>, common: set<Signature>) returns (candidates: Counter)
    ensures candidates == CandidateCounts(DocLines(doc), common)
  {
    candidates := Counter([], map[]);
    for i := 0 to |doc|
      invariant candidates == CandidateCounts(DocLines(doc[..i]), common)
    {
      var blocks := doc[i].blocks;
      VisitedStart(doc, i);
      for j := 0 to |blocks|
        invariant candidates == CandidateCounts(Visited(doc, i, j), common)
      {
        if blocks[j].kind != 0 {
          VisitedSkip(doc, i, j);
          continue;
        }
        var lines := blocks[j].lines;
        WalkedStart(doc, i, j);
        for k := 0 to |lines|
          invariant candidates == CandidateCounts(Walked(doc, i, j, k), common)
        {
          WalkedStep(doc, i, j, k);
          CandidateLineStep(Walked(doc, i, j, k), i, lines[k], common);
          if lines[k].spans == [] {
            continue;
          }
          var signature := SignatureOf(lines[k].spans[0]);
          if signature in common {
            continue;
          }
          var text := LineText(lines[k]);
          if text != [] && |text| < 150 {
            candidates := Increment(candidates, signature);
          }
        }
        WalkedEnd(doc, i, j);
      }
      VisitedEnd(doc, i);
    }
    assert doc[..|doc|] == doc;
  }

  /** The loop that labels the first three sorted entries H1..H3. */
  method AssignLevels(sorted: seq<Item>) returns (styles: map<Signature, int>)
    requires DistinctSigs(sorted)
    ensures styles == LevelMap(sorted, Min(3, |sorted|))
    ensures |styles| == Min(3, |sorted|)
    ensures forall i :: 0 <= i < Min(3, |sorted|) ==> sorted[i].sig in styles && styles[sorted[i].sig] == i + 1
    ensures forall s :: s in styles ==> exists i :: 0 <= i < Min(3, |sorted|) && sorted[i].sig == s
  {
    styles := map[];
    var top := Top3(sorted);
    for i := 0 to |top|
      invariant styles == LevelMap(sorted, i)
    {
      styles := styles[top[i].sig := i + 1];
    }
    LevelMapFacts(sorted, Min(3, |sorted|));
  }

  /** identify_heading_styles. */
  method IdentifyHeadingStyles(doc: seq<Page>) returns (styles: map<Signature, int>)
    ensures styles == HeadingStyles(doc)
  {
    var styleCounter := CountStyles(doc);
    var commonStyles: set<Signature> := {};
    if styleCounter.keys != [] {
      var sortedStyles := Sort(Items(styleCounter), ByCount);
      commonStyles := SigsOf(Top3(sortedStyles));
    }
    assert commonStyles == CommonStyles(styleCounter);
    var headingCandidates := CountCandidates(doc, commonStyles);
    styles := map[];
    if headingCandidates.keys != [] {
      var sortedHeadings := Sort(Items(headingCandidates), BySizeThenCount);
      ItemsFacts(headingCandidates);
      SortFacts(Items(headingCandidates), BySizeThenCount);
      styles := AssignLevels(sortedHeadings);
    }
    assert styles == SelectLevels(headingCandidates);
  }

  // ---------------------------------------------------------------------------
  // What the selection guarantees.
  // ---------------------------------------------------------------------------

  /** Every entry of a sorted counter is one of its key-count pairs. */
  lemma SortedEntries(c: Counter, key: SortKey)
    requires Valid(c)
    ensures forall x :: x in Sort(Items(c), key) ==> x.sig in c.count && x.count == c.count[x.sig]
    ensures DistinctSigs(Sort(Items(c), key))
    ensures Sorted(Sort(Items(c), key), key)
    ensures |Sort(Items(c), key)| == |c.keys|
  {
    ItemsFacts(c);
    SortFacts(Items(c), key);
    forall x | x in Sort(Items(c), key) ensures x.sig in c.count && x.count == c.count[x.sig] {
      assert x in multiset(Sort(Items(c), key));
      assert x in multiset(Items(c));
    }
  }

  /** The body-text styles are signatures that occur: min(3, n) of them for n distinct signatures. */
  lemma CommonStylesSize(c: Counter)
    requires Valid(c)
    ensures CommonStyles(c) <= c.count.Keys
    ensures |CommonStyles(c)| == Min(3, |c.keys|)
  {
    var r := Sort(Items(c), ByCount);
    SortedEntries(c, ByCount);
    var top := Top3(r);
    forall s | s in CommonStyles(c) ensures s in c.count {
      var i :| 0 <= i < |top| && top[i].sig == s;
      assert top[i] == r[i];
    }
    assert DistinctSigs(top) by {
      forall i, j | 0 <= i < |top| && 0 <= j < |top| && i != j ensures top[i].sig != top[j].sig {
        assert top[i] == r[i] && top[j] == r[j];
      }
    }
    DistinctCard(top);
  }

  /** Each body-text style occurs at least as often as any signature that is not one. */
  lemma CommonStylesMostFrequent(c: Counter)
    requires Valid(c)
    ensures forall s, t :: s in CommonStyles(c) && t in c.count && t !in CommonStyles(c) ==>
              s in c.count && c.count[s] >= c.count[t]
  {
    var items := Items(c);
    var r := Sort(items, ByCount);
    var top := Top3(r);
    ItemsFacts(c);
    SortedEntries(c, ByCount);
    TopDominates(items, ByCount);
    forall s, t | s in CommonStyles(c) && t in c.count && t !in CommonStyles(c) ensures s in c.count && c.count[s] >= c.count[t] {
      var i :| 0 <= i < |top| && top[i].sig == s;
      assert top[i] == r[i] && r[i] in r;
      assert Item(t, c.count[t]) in items;
      assert AtLeast(ByCount, top[i], Item(t, c.count[t]));
    }
  }

  /** The level map holds min(3, n) of the n candidate signatures, labelled 1..min(3, n) without gaps. */
  lemma SelectLevelsShape(c: Counter)
    requires Valid(c)
    ensures |SelectLevels(c)| == Min(3, |c.keys|)
    ensures SelectLevels(c).Keys <= c.count.Keys
    ensures forall s :: s in SelectLevels(c) ==> 1 <= SelectLevels(c)[s] <= |SelectLevels(c)|
    ensures forall n :: 1 <= n <= |SelectLevels(c)| ==> n in SelectLevels(c).Values
  {
    var r := Sort(Items(c), BySizeThenCount);
    var n := Min(3, |r|);
    SortedEntries(c, BySizeThenCount);
    LevelMapFacts(r, n);
    var m := LevelMap(r, n);
    assert SelectLevels(c) == m;
    forall s | s in m ensures s in c.count && 1 <= m[s] <= n {
      var i :| 0 <= i < n && r[i].sig == s;
      assert r[i] in r;
    }
    forall k | 1 <= k <= n ensures k in m.Values {
      assert r[k - 1].sig in m && m[r[k - 1].sig] == k;
    }
  }

  /**
    Every labelled signature is a candidate of `c`, and a smaller level goes to
    a signature at least as high in (size, count) order.
   */
  ghost predicate LevelsByRank(m: map<Signature, int>, c: Counter)
  {
    forall s, t :: s in m && t in m && m[s] < m[t] ==>
      s in c.count && t in c.count && AtLeast(BySizeThenCount, Item(s, c.count[s]), Item(t, c.count[t]))
  }

  /** Levels follow the (size, count) order: a smaller level never ranks below a larger one. */
  lemma SelectLevelsMonotone(c: Counter)
    requires Valid(c)
    ensures LevelsByRank(SelectLevels(c), c)
  {
    forall s, t | s in SelectLevels(c) && t in SelectLevels(c) && SelectLevels(c)[s] < SelectLevels(c)[t]
      ensures s in c.count && t in c.count && AtLeast(BySizeThenCount, Item(s, c.count[s]), Item(t, c.count[t]))
    {
      LevelPair(c, s, t);
    }
  }

  /** One pair of SelectLevelsMonotone. */
  lemma LevelPair(c: Counter, s: Signature, t: Signature)
    requires Valid(c) && s in SelectLevels(c) && t in SelectLevels(c) && SelectLevels(c)[s] < SelectLevels(c)[t]
    ensures s in c.count && t in c.count && AtLeast(BySizeThenCount, Item(s, c.count[s]), Item(t, c.count[t]))
  {
    var r := Sort(Items(c), BySizeThenCount);
    var n := Min(3, |r|);
    SortedEntries(c, BySizeThenCount);
    assert SelectLevels(c) == LevelMap(r, n);
    var i := LevelMapIndex(r, n, s);
    var j := LevelMapIndex(r, n, t);
    assert r[i] in r && r[j] in r;
    assert r[i] == Item(s, c.count[s]) && r[j] == Item(t, c.count[t]);
    assert AtLeast(BySizeThenCount, r[i], r[j]);
  }

  /** Every candidate left without a level ranks no higher, by (size, count), than any labelled one. */
  lemma SelectLevelsTop(c: Counter)
    requires Valid(c)
    ensures forall s, t :: s in SelectLevels(c) && t in c.count && t !in SelectLevels(c) ==>
              s in c.count && AtLeast(BySizeThenCount, Item(s, c.count[s]), Item(t, c.count[t]))
  {
    forall s, t | s in SelectLevels(c) && t in c.count && t !in SelectLevels(c)
      ensures s in c.count && AtLeast(BySizeThenCount, Item(s, c.count[s]), Item(t, c.count[t]))
    {
      LevelTopPair(c, s, t);
    }
  }

  /** One pair of SelectLevelsTop. */
  lemma LevelTopPair(c: Counter, s: Signature, t: Signature)
    requires Valid(c) && s in SelectLevels(c) && t in c.count && t !in SelectLevels(c)
    ensures s in c.count && AtLeast(BySizeThenCount, Item(s, c.count[s]), Item(t, c.count[t]))
  {
    var r := Sort(Items(c), BySizeThenCount);
    var n := Min(3, |r|);
    SortedEntries(c, BySizeThenCount);
    assert SelectLevels(c) == LevelMap(r, n);
    var i := LevelMapIndex(r, n, s);
    var j := UnlabelledIndex(c, t);
    assert r[i] in r;
    assert r[i] == Item(s, c.count[s]);
    assert AtLeast(BySizeThenCount, r[i], r[j]);
  }

  /** A candidate without a level sits in the sorted entries past the labelled ones. */
  lemma UnlabelledIndex(c: Counter, t: Signature) returns (j: nat)
    requires Valid(c) && t in c.count && t !in SelectLevels(c)
    ensures Min(3, |c.keys|) <= j < |Sort(Items(c), BySizeThenCount)|
    ensures Sort(Items(c), BySizeThenCount)[j] == Item(t, c.count[t])
  {
    var items := Items(c);
    var r := Sort(items, BySizeThenCount);
    var n := Min(3, |r|);
    ItemsFacts(c);
    SortFacts(items, BySizeThenCount);
    LevelMapFacts(r, n);
    var x := Item(t, c.count[t]);
    assert x in multiset(r) by { assert x in items; }
    j :| 0 <= j < |r| && r[j] == x;
  }

  /**
    identify_heading_styles returns at most three signatures, labelled
    exactly H1..Hk for k the number of signatures.
   */
  lemma HeadingStylesLevels(doc: seq<Page>)
    ensures |HeadingStyles(doc)| <= 3
    ensures forall s :: s in HeadingStyles(doc) ==> 1 <= HeadingStyles(doc)[s] <= |HeadingStyles(doc)|
    ensures forall n :: 1 <= n <= |HeadingStyles(doc)| ==> n in HeadingStyles(doc).Values
  {
    SelectLevelsShape(HeadingCandidates(doc));
  }

  /**
    A heading style is never one of the three most frequent signatures, and it
    is the first-span signature of some line whose stripped text is non-empty
    and shorter than 150 characters.
   */
  lemma HeadingStylesEligible(doc: seq<Page>)
    ensures forall s :: s in HeadingStyles(doc) ==>
              s !in BodyStyles(doc) && HasCandidateLine(DocLines(doc), BodyStyles(doc), s)
  {
    var ls := DocLines(doc);
    var common := BodyStyles(doc);
    CandidateCountsFacts(ls, common);
    SelectLevelsShape(HeadingCandidates(doc));
    forall s | s in HeadingStyles(doc) ensures s !in common && HasCandidateLine(ls, common, s) {
      var i :| 0 <= i < |ls| && IsCandidateLine(ls[i].line, common, s);
    }
  }

  /** Levels are handed out in descending (size, count) order of the heading candidates. */
  lemma HeadingStylesRanked(doc: seq<Page>)
    ensures LevelsByRank(HeadingStyles(doc), HeadingCandidates(doc))
  {
    SelectLevelsMonotone(HeadingCandidates(doc));
  }

  /** A heading candidate left without a level ranks, by (size, count), no higher than any that got one. */
  lemma HeadingStylesTop(doc: seq<Page>)
    ensures forall s, t :: s in HeadingStyles(doc) && t in HeadingCandidates(doc).count && t !in HeadingStyles(doc) ==>
              s in HeadingCandidates(doc).count &&
              AtLeast(BySizeThenCount, Item(s, HeadingCandidates(doc).count[s]), Item(t, HeadingCandidates(doc).count[t]))
  {
    var c := HeadingCandidates(doc);
    var m := HeadingStyles(doc);
    assert m == SelectLevels(c);
    forall s, t | s in m && t in c.count && t !in m
      ensures s in c.count && AtLeast(BySizeThenCount, Item(s, c.count[s]), Item(t, c.count[t]))
    {
      LevelTopPair(c, s, t);
    }
  }

  /** The body-text styles of a document are its most frequent first-span signatures. */
  lemma BodyStylesMostFrequent(doc: seq<Page>)
    ensures |BodyStyles(doc)| == Min(3, |StyleCounts(DocLines(doc)).keys|)
    ensures forall s, t :: s in BodyStyles(doc) && t in StyleCounts(DocLines(doc)).count && t !in BodyStyles(doc) ==>
              s in StyleCounts(DocLines(doc)).count &&
              StyleCounts(DocLines(doc)).count[s] >= StyleCounts(DocLines(doc)).count[t]
  {
    CommonStylesSize(StyleCounts(DocLines(doc)));
    CommonStylesMostFrequent(StyleCounts(DocLines(doc)));
  }

  /** Distinct signatures give as many signatures as entries. */
  lemma {:induction false} DistinctCard(s: seq<Item>)
    requires DistinctSigs(s)
    ensures |SigsOf(s)| == |s|
  {
    if s != [] {
      var front := s[..|s| - 1];
      assert DistinctSigs(front);
      DistinctCard(front);
      assert SigsOf(s) == SigsOf(front) + {s[|s| - 1].sig};
      assert s[|s| - 1].sig !in SigsOf(front);
    }
  }
}
