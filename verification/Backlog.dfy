/** HashDb: the hash file of the previous run, searched from the last hit on. */
module HashDatabase {
  import opened BlockFormat

  const SEARCH_LIMIT: nat := 10000

  /**
   * The mapped hash file. It holds `words` 32-bit words; entry e is the pair of words 2e and 2e+1.
   * The map may hold anything at all, and what a last odd word is paired with is left open.
   */
  datatype HashView = HashView(hasError: bool, words: nat, entry: nat -> Entry)

  /** The output position that entry e stands for. */
  function Decoded(view: HashView, e: nat): int { e * BLOCKSIZE_AVG + view.entry(e).off }

  predicate Hit(view: HashView, e: nat, chash: Hash, offset: int) {
    view.entry(e).chash == chash && Decoded(view, e) >= offset
  }

  class HashDb {
    const view: HashView
    var nextEntry: nat

    constructor (view: HashView)
      ensures this.view == view && nextEntry == 0
    {
      this.view := view;
      nextEntry := 0;
    }

    /** The entries that find looks at. */
    predicate InReach(e: nat)
      reads this
    {
      nextEntry <= e < nextEntry + SEARCH_LIMIT && 2 * e < view.words
    }

    /** find: the first entry in reach with this checksum and a position not before offset. */
    method Find(chash: Hash, offset: int) returns (found: bool, e: nat)
      ensures found ==> InReach(e) && Hit(view, e, chash, offset)
      ensures found ==> forall j | nextEntry <= j < e :: !Hit(view, j, chash, offset)
      ensures !found ==> forall j | InReach(j) :: !Hit(view, j, chash, offset)
    {
      e := nextEntry;
      while e < nextEntry + SEARCH_LIMIT && 2 * e < view.words
        invariant nextEntry <= e <= nextEntry + SEARCH_LIMIT
        invariant forall j | nextEntry <= j < e :: !Hit(view, j, chash, offset)
      {
        if view.entry(e).chash == chash && Decoded(view, e) >= offset {
          return true, e;
        }
        e := e + 1;
      }
      found := false;
    }

    method SetNext(e: nat)
      modifies this
      ensures nextEntry == e
    {
      nextEntry := e;
    }
  }
}

/** OutputBuffer: the blocks that wait for their place in the output. */
module Backlog {
  import opened BlockFormat

  const SIZE_MAX: nat := 0xffff_ffff_ffff_ffff

  datatype Positioned = Positioned(key: int, item: Item)

  function Total(s: seq<Item>): nat {
    if s == [] then 0 else Total(s[..|s| - 1]) + |s[|s| - 1].data|
  }

  function Unkeyed(s: seq<Positioned>): (r: seq<Item>)
    ensures |r| == |s| && forall i | 0 <= i < |s| :: r[i] == s[i].item
  {
    seq(|s|, i requires 0 <= i < |s| => s[i].item)
  }

  lemma {:induction false} TotalConcat(s: seq<Item>, t: seq<Item>)
    ensures Total(s + t) == Total(s) + Total(t)
  {
    if t == [] {
      assert s + t == s;
    } else {
      var n := |t| - 1;
      assert (s + t)[..|s + t| - 1] == s + t[..n];
      TotalConcat(s, t[..n]);
    }
  }

  function Without<T>(s: seq<T>, i: nat): seq<T>
    requires i < |s|
  {
    s[..i] + s[i + 1..]
  }

  lemma WithoutShorter<T>(s: seq<T>, i: nat)
    requires i < |s|
    ensures |Without(s, i)| == |s| - 1
  {
  }

  lemma WithoutItem(s: seq<Item>, i: nat)
    requires i < |s|
    ensures Total(s) == Total(Without(s, i)) + |s[i].data|
    ensures multiset(s) == multiset(Without(s, i)) + multiset{s[i]}
  {
    assert s == s[..i] + ([s[i]] + s[i + 1..]);
    TotalConcat(s[..i], [s[i]] + s[i + 1..]);
    TotalConcat([s[i]], s[i + 1..]);
    TotalConcat(s[..i], s[i + 1..]);
    assert [s[i]][..0] == [];
  }

  lemma WithoutPositioned(s: seq<Positioned>, i: nat)
    requires i < |s|
    ensures Unkeyed(Without(s, i)) == Without(Unkeyed(s), i)
    ensures Total(Unkeyed(s)) == Total(Unkeyed(Without(s, i))) + |s[i].item.data|
    ensures multiset(Unkeyed(s)) == multiset(Unkeyed(Without(s, i))) + multiset{s[i].item}
  {
    assert Unkeyed(Without(s, i)) == Without(Unkeyed(s), i);
    WithoutItem(Unkeyed(s), i);
  }

  predicate Sorted(s: seq<Positioned>) {
    forall i, j | 0 <= i < j < |s| :: s[i].key <= s[j].key
  }

  lemma SortedWithout(s: seq<Positioned>, i: nat)
    requires i < |s| && Sorted(s)
    ensures Sorted(Without(s, i))
  {
    var t := Without(s, i);
    forall j, k | 0 <= j < k < |t| ensures t[j].key <= t[k].key {
      assert t[j] == s[if j < i then j else j + 1] && t[k] == s[if k < i then k else k + 1];
    }
  }

  function Inserted(s: seq<Positioned>, i: nat, x: Positioned): seq<Positioned>
    requires i <= |s|
  {
    s[..i] + [x] + s[i..]
  }

  lemma InsertedSorted(s: seq<Positioned>, i: nat, x: Positioned)
    requires i <= |s| && Sorted(s)
    requires (forall j | 0 <= j < i :: s[j].key <= x.key) && (forall j | i <= j < |s| :: x.key < s[j].key)
    ensures |Inserted(s, i, x)| == |s| + 1 && Inserted(s, i, x)[i] == x
    ensures Sorted(Inserted(s, i, x)) && Without(Inserted(s, i, x), i) == s
  {
    var t := Inserted(s, i, x);
    forall j, k | 0 <= j < k < |t| ensures t[j].key <= t[k].key {
      assert t[j] == if j < i then s[j] else if j == i then x else s[j - 1];
      assert t[k] == if k < i then s[k] else if k == i then x else s[k - 1];
    }
  }

  lemma InsertedItem(s: seq<Positioned>, i: nat, x: Positioned)
    requires i <= |s| && Sorted(s)
    requires (forall j | 0 <= j < i :: s[j].key < x.key + 1) && (forall j | i <= j < |s| :: x.key + 1 <= s[j].key)
    ensures Sorted(Inserted(s, i, x))
    ensures Total(Unkeyed(Inserted(s, i, x))) == Total(Unkeyed(s)) + |x.item.data|
    ensures multiset(Unkeyed(Inserted(s, i, x))) == multiset(Unkeyed(s)) + multiset{x.item}
  {
    hide Total, Unkeyed, Inserted, Without;
    InsertedSorted(s, i, x);
    WithoutPositioned(Inserted(s, i, x), i);
  }

  /** A block of this size fits a gap of the given length, or leaves room for another record. */
  predicate Fits(size: nat, gap: nat, fitOff: nat) {
    size + fitOff == gap || size + 2 * fitOff <= gap
  }

  class OutputBuffer {
    var items: seq<Positioned>
    var anywhere: seq<Item>
    var size: nat

    ghost predicate Valid()
      reads this
    {
      && size == Total(anywhere) + Total(Unkeyed(items))
      && Sorted(items)
    }

    ghost function Contents(): multiset<Item>
      reads this
    {
      multiset(anywhere) + multiset(Unkeyed(items))
    }

    constructor ()
      ensures Valid() && items == [] && anywhere == []
    {
      items, anywhere, size := [], [], 0;
    }

    predicate Empty()
      reads this
    {
      items == [] && anywhere == []
    }

    /** lower_bound: the first positioned item whose key is not before offset. */
    method Next(offset: int) returns (i: nat)
      requires Valid()
      ensures i <= |items| && (forall j | 0 <= j < i :: items[j].key < offset)
      ensures forall j | i <= j < |items| :: items[j].key >= offset
    {
      i := 0;
      while i < |items| && items[i].key < offset
        invariant i <= |items| && forall j | 0 <= j < i :: items[j].key < offset
      {
        i := i + 1;
      }
    }

    /** add: a multimap insertion behind all items with the same key. */
    method Add(key: int, item: Item)
      requires Valid()
      modifies this`items, this`size
      ensures Valid() && size == old(size) + |item.data|
      ensures exists i | 0 <= i <= |old(items)| :: items == Inserted(old(items), i, Positioned(key, item))
      ensures Contents() == old(Contents()) + multiset{item}
    {
      var i := Next(key + 1);
      InsertedItem(items, i, Positioned(key, item));
      hide Total, Unkeyed, Sorted, Inserted;
      items := Inserted(items, i, Positioned(key, item));
      size := size + |item.data|;
    }

    method AddAnywhere(item: Item)
      requires Valid()
      modifies this`anywhere, this`size
      ensures Valid() && anywhere == old(anywhere) + [item] && size == old(size) + |item.data|
      ensures Contents() == old(Contents()) + multiset{item}
    {
      anywhere := anywhere + [item];
      size := size + |item.data|;
      assert anywhere[..|anywhere| - 1] == old(anywhere);
    }

    method Remove(i: nat)
      requires Valid() && i < |items|
      modifies this`items, this`size
      ensures Valid() && items == Without(old(items), i) && size == old(size) - |old(items)[i].item.data|
      ensures old(Contents()) == Contents() + multiset{old(items)[i].item}
    {
      WithoutPositioned(items, i);
      SortedWithout(items, i);
      size := size - |items[i].item.data|;
      items := Without(items, i);
    }

    method RemoveAnywhere(i: nat)
      requires Valid() && i < |anywhere|
      modifies this`anywhere, this`size
      ensures Valid() && anywhere == Without(old(anywhere), i) && size == old(size) - |old(anywhere)[i].data|
      ensures old(Contents()) == Contents() + multiset{old(anywhere)[i]}
    {
      WithoutItem(anywhere, i);
      size := size - |anywhere[i].data|;
      anywhere := Without(anywhere, i);
    }

    /** best_fit: the first of the largest blocks that fit; with unlimited space, the first block. */
    method BestFit(gap: nat, fitOff: nat) returns (best: nat)
      requires forall i | 0 <= i < |anywhere| :: |anywhere[i].data| <= BLOCKSIZE_MAX
      requires fitOff <= 6
      ensures best <= |anywhere|
      ensures best < |anywhere| ==> Fits(|anywhere[best].data|, gap, fitOff)
      ensures best == |anywhere| <==>
              gap < fitOff || forall i | 0 <= i < |anywhere| :: !Fits(|anywhere[i].data|, gap, fitOff)
      ensures best < |anywhere| && gap != SIZE_MAX ==>
                && (forall i | 0 <= i < |anywhere| && Fits(|anywhere[i].data|, gap, fitOff) ::
                    |anywhere[i].data| <= |anywhere[best].data|)
                && (forall i | 0 <= i < best && Fits(|anywhere[i].data|, gap, fitOff) ::
                    |anywhere[i].data| < |anywhere[best].data|)
      ensures gap == SIZE_MAX && anywhere != [] ==> best == 0
    {
      best := |anywhere|;
      if gap < fitOff {
        return;
      }
      var i := 0;
      while i < |anywhere|
        invariant i <= |anywhere|
        invariant best == |anywhere| || best < i
        invariant best < |anywhere| ==> Fits(|anywhere[best].data|, gap, fitOff)
        invariant best < |anywhere| ==> |anywhere[best].data| + fitOff != gap
        invariant gap == SIZE_MAX ==> i == 0
        invariant best == |anywhere| ==> forall j | 0 <= j < i :: !Fits(|anywhere[j].data|, gap, fitOff)
        invariant best < |anywhere| ==>
                forall j | 0 <= j < i && Fits(|anywhere[j].data|, gap, fitOff) ::
                    |anywhere[j].data| <= |anywhere[best].data|
        invariant best < |anywhere| ==>
                forall j | 0 <= j < best && Fits(|anywhere[j].data|, gap, fitOff) ::
                    |anywhere[j].data| < |anywhere[best].data|
      {
        var size := |anywhere[i].data|;
        if Fits(size, gap, fitOff) && (best == |anywhere| || size > |anywhere[best].data|) {
          best := i;
          if gap == SIZE_MAX || size + fitOff == gap {
            break;
          }
        }
        i := i + 1;
      }
    }
  }
}
