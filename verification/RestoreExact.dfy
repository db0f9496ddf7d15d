/** A stored position that does not survive the cast to int makes restore lose its block. */
module RestoreExact {
  import opened Bytes
  import opened BlockFormat
  import opened Backlog
  import opened Restore
  import opened RestoreProof

  /** The length of the data of record i, if it is marked. */
  function Length(r: Record, marked: bool): nat {
    if marked && r.Data? then |r.item.data| else 0
  }

  /** The bytes of the marked data records. */
  function Marked(recs: seq<Record>, marks: seq<bool>): nat
    requires |marks| == |recs|
  {
    if recs == [] then 0
    else Marked(recs[..|recs| - 1], marks[..|recs| - 1]) + Length(recs[|recs| - 1], marks[|recs| - 1])
  }

  lemma {:induction false} MarkOne(recs: seq<Record>, marks: seq<bool>, i: nat)
    requires |marks| == |recs| && i < |recs| && !marks[i]
    ensures Marked(recs, marks[i := true]) == Marked(recs, marks) + Length(recs[i], true)
    decreases |recs|
  {
    var n := |recs| - 1;
    if i < n {
      MarkOne(recs[..n], marks[..n], i);
      assert marks[i := true][..n] == marks[..n][i := true];
    } else {
      assert marks[i := true][..n] == marks[..n];
    }
  }

  lemma {:induction false} MarkedWithin(recs: seq<Record>, marks: seq<bool>)
    requires |marks| == |recs|
    ensures Marked(recs, marks) <= Total(ItemsOf(recs))
  {
    if recs != [] {
      var n := |recs| - 1;
      MarkedWithin(recs[..n], marks[..n]);
      if recs[n].Data? {
        assert ItemsOf(recs)[..|ItemsOf(recs)| - 1] == ItemsOf(recs[..n]);
      } else {
        assert ItemsOf(recs) == ItemsOf(recs[..n]);
      }
    }
  }

  /** A record that is not marked is missing from the marked bytes. */
  lemma MissingOne(recs: seq<Record>, marks: seq<bool>, x: nat)
    requires |marks| == |recs| && x < |recs| && !marks[x]
    ensures Marked(recs, marks) + Length(recs[x], true) <= Total(ItemsOf(recs))
  {
    MarkOne(recs, marks, x);
    MarkedWithin(recs, marks[x := true]);
  }

  /** Pending block k comes from the unmarked record from[k]; record x can only wait where the output never arrives. */
  ghost predicate PendingFrom(recs: seq<Record>, x: nat, marks: seq<bool>, pending: Pending, from: map<int, nat>,
      k: int)
    requires |marks| == |recs|
  {
    && k in pending && k in from && from[k] < |recs| && recs[from[k]].Data? && !marks[from[k]]
    && pending[k] == recs[from[k]].item.data
    && (from[k] == x ==> k >= TWO_32)
  }

  /** The output consists of the data of the marked records, which do not include record x. */
  ghost predicate Lacks(recs: seq<Record>, n: nat, x: nat, s: Flushed, marks: seq<bool>, from: map<int, nat>)
  {
    && |marks| == |recs| && x < |recs| && !marks[x] && n <= |recs|
    && s.offset == |s.out| == Marked(recs, marks)
    && (forall i | n <= i < |recs| :: !marks[i])
    && (forall k | k in s.pending :: PendingFrom(recs, x, marks, s.pending, from, k) && from[k] < n)
    && (forall j, k | j in s.pending && k in s.pending && j != k :: from[j] != from[k])
  }

  lemma {:induction false} FlushLacks(recs: seq<Record>, n: nat, x: nat, s: Flushed, marks: seq<bool>,
      from: map<int, nat>)
    returns (marks': seq<bool>, from': map<int, nat>)
    requires Lacks(recs, n, x, s, marks, from) && Total(ItemsOf(recs)) < TWO_32
    ensures Lacks(recs, n, x, Flush(s.pending, s.offset, s.out), marks', from')
    decreases |s.pending|
  {
    hide Marked, ItemsOf, Total;
    marks', from' := marks, from;
    if s.offset in s.pending {
      MarkedWithin(recs, marks);
      assert PendingFrom(recs, x, marks, s.pending, from, s.offset);
      var i := from[s.offset];
      MarkOne(recs, marks, i);
      RemoveShrinks(s.pending, s.offset);
      var block := s.pending[s.offset];
      var t := Flushed(s.pending - {s.offset}, s.offset + |block|, s.out + block);
      forall k | k in t.pending ensures PendingFrom(recs, x, marks[i := true], t.pending, from, k) {
        assert PendingFrom(recs, x, marks, s.pending, from, k);
      }
      marks', from' := FlushLacks(recs, n, x, t, marks[i := true], from);
    }
  }

  /** The key of a record whose position does not fit is behind the output or out of its reach. */
  lemma MisfitKey(recs: seq<Record>, x: nat)
    requires x < |recs| && recs[x].Data? && recs[x].item.pos < TWO_32 && !PositionFits(recs[x].item.pos, x)
    ensures MapEntry(recs[x], x) == INT_MAX || Key(recs, x) < 0 || Key(recs, x) >= TWO_32
  {
    CastInt32Exact(recs[x].item.pos - x * BLOCKSIZE_AVG);
  }

  lemma {:induction false} StepLacks(recs: seq<Record>, n: nat, x: nat, s: Flushed, marks: seq<bool>,
      from: map<int, nat>)
    returns (marks': seq<bool>, from': map<int, nat>)
    requires Lacks(recs, n, x, s, marks, from) && Total(ItemsOf(recs)) < TWO_32 && n < |recs| && recs[n].Data?
    requires n == x ==> Key(recs, n) >= TWO_32
    ensures Lacks(recs, n + 1, x, AdvanceAt(Key(recs, n), recs[n].item.data, s), marks', from')
  {
    hide Marked, ItemsOf, Total, MapEntry;
    var key, data := Key(recs, n), recs[n].item.data;
    if key == s.offset {
      MarkedWithin(recs, marks);
      MarkOne(recs, marks, n);
      var t := Flushed(s.pending, s.offset + |data|, s.out + data);
      forall k | k in t.pending ensures PendingFrom(recs, x, marks[n := true], t.pending, from, k) {
        assert PendingFrom(recs, x, marks, s.pending, from, k);
      }
      marks', from' := FlushLacks(recs, n + 1, x, t, marks[n := true], from);
    } else {
      marks', from' := marks, from[key := n];
      var pending' := s.pending[key := data];
      forall k | k in pending' ensures PendingFrom(recs, x, marks, pending', from', k) && from'[k] < n + 1 {
        if k != key {
          assert PendingFrom(recs, x, marks, s.pending, from, k);
        }
      }
    }
  }

  /** From a state without record x the loop fails or ends without it. */
  lemma {:induction false} EndsLacking(recs: seq<Record>, n: nat, x: nat, s: Flushed, marks: seq<bool>,
      from: map<int, nat>)
    requires WellFormed(recs) && |recs| < Pow256(7) && Total(ItemsOf(recs)) < TWO_32
    requires Lacks(recs, n, x, s, marks, from) && recs[x].Data? && recs[x].item.pos < TWO_32
    requires !PositionFits(recs[x].item.pos, x)
    ensures var r := AtRecord(recs, n, s); r.ok ==> |r.out| + |recs[x].item.data| <= Total(ItemsOf(recs))
    decreases |recs| - n
  {
    hide AtRecord, AdvanceAt, Marked, ItemsOf, Total, PositionFits, MapEntry, Key;
    MissingOne(recs, marks, x);
    if n == |recs| {
      AtEnd(recs, s);
      return;
    }
    PassAny(recs, n, s);
    MisfitKey(recs, x);
    ZeroEntry(recs, n);
    if MapEntry(recs[n], n) == INT_MAX {
      EndsLacking(recs, n + 1, x, s, marks, from);
    } else if Key(recs, n) >= s.offset {
      var marks', from' := StepLacks(recs, n, x, s, marks, from);
      EndsLacking(recs, n + 1, x, AdvanceAt(Key(recs, n), recs[n].item.data, s), marks', from');
    }
  }

  lemma ZeroEntry(recs: seq<Record>, n: nat)
    requires n < |recs|
    ensures MapEntry(recs[n], n) != INT_MAX ==> recs[n].Data? && Payload(recs[n]) == recs[n].item.data
  {
  }

  /** An archive with a position that does not fit is not restored to all of its data. */
  lemma {:induction false} MisfitLosesData(recs: seq<Record>, x: nat)
    requires WellFormed(recs) && |recs| < Pow256(7) && Total(ItemsOf(recs)) < TWO_32
    requires x < |recs| && recs[x].Data? && recs[x].item.pos < TWO_32 && !PositionFits(recs[x].item.pos, x)
    ensures var r := RestoreFile(Archive(recs)); r.ok ==> |r.out| + |recs[x].item.data| <= Total(ItemsOf(recs))
  {
    hide Archive, Body, Marked, ItemsOf, Total, PositionFits, RestoreFrom;
    ArchiveShape(recs);
    assert recs[..0] == [];
    var marks := seq(|recs|, _ => false);
    NothingMarked(recs, marks);
    EmptyBody();
    EndsLacking(recs, 0, x, START, marks, map[]);
  }

  lemma {:induction false} NothingMarked(recs: seq<Record>, marks: seq<bool>)
    requires |marks| == |recs| && forall i | 0 <= i < |marks| :: !marks[i]
    ensures Marked(recs, marks) == 0
  {
    if recs != [] {
      NothingMarked(recs[..|recs| - 1], marks[..|recs| - 1]);
    }
  }
}
