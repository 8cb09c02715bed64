/** A log whose entries each hash the one before (log.rs of the receipt crate), and why its head
    stands for all of it. */
module ReceiptLog {
  import opened Results
  import opened Codec
  import opened Decimals

  datatype Entry = Entry(position: nat, prev: string, hash: string, receipt: string)

  datatype LogError = Sequence(position: nat) | PrevMismatch(position: nat) | HashMismatch(position: nat)

  datatype Verified = Head(hash: string) | Broken(error: LogError)

  function EntryText(position: nat, prev: string, receipt: string): string {
    NatText(position) + ":" + prev + ":" + receipt
  }

  function EntryHash(c: Codec, position: nat, prev: string, receipt: string): string {
    c.digest(EntryText(position, prev, receipt))
  }

  function HeadOf(entries: seq<Entry>): string {
    if entries == [] then "" else entries[|entries| - 1].hash
  }

  /** What is wrong with entry `i`, if anything, after the hash `prev`. */
  function Fault(c: Codec, e: Entry, i: nat, prev: string): Option<LogError> {
    if e.position != i then Some(Sequence(i))
    else if e.prev != prev then Some(PrevMismatch(i))
    else if e.hash != EntryHash(c, e.position, e.prev, e.receipt) then Some(HashMismatch(i))
    else None
  }

  function FaultAt(c: Codec, entries: seq<Entry>, i: nat): Option<LogError>
    requires i < |entries|
  {
    Fault(c, entries[i], i, HeadOf(entries[..i]))
  }

  /** No entry has a fault where it stands. */
  predicate Chained(c: Codec, entries: seq<Entry>) {
    forall i | 0 <= i < |entries| :: FaultAt(c, entries, i) == None
  }

  /** `verify`: the head of a chained log, or the fault of the first entry that has one. */
  method VerifyLog(c: Codec, entries: seq<Entry>) returns (r: Verified)
    ensures r.Head? <==> Chained(c, entries)
    ensures r.Head? ==> r.hash == HeadOf(entries)
    ensures r.Broken? ==>
              exists i :: 0 <= i < |entries| && FaultAt(c, entries, i) == Some(r.error) && Chained(c, entries[..i])
  {
    var prev := "";
    for i := 0 to |entries|
      invariant prev == HeadOf(entries[..i])
      invariant Chained(c, entries[..i])
    {
      var e := entries[i];
      ChainedOneMore(c, entries, i);
      if e.position != i { return Broken(Sequence(i)); }
      if e.prev != prev { return Broken(PrevMismatch(i)); }
      if e.hash != EntryHash(c, e.position, e.prev, e.receipt) { return Broken(HashMismatch(i)); }
      prev := e.hash;
    }
    assert entries[..|entries|] == entries;
    r := Head(prev);
  }

  lemma ChainedOneMore(c: Codec, entries: seq<Entry>, i: nat)
    requires i < |entries|
    ensures Chained(c, entries[..i + 1]) <==> Chained(c, entries[..i]) && FaultAt(c, entries, i) == None
    ensures FaultAt(c, entries, i).Some? ==> !Chained(c, entries)
  {
    var some, more := entries[..i], entries[..i + 1];
    assert forall j | 0 <= j < i :: some[..j] == more[..j] && some[j] == more[j];
    assert more[..i] == entries[..i] && more[i] == entries[i];
    assert forall j | 0 <= j < i :: FaultAt(c, more, j) == FaultAt(c, some, j);
    assert FaultAt(c, more, i) == FaultAt(c, entries, i);
  }

  class Log {
    var entries: seq<Entry>

    constructor ()
      ensures entries == []
    {
      entries := [];
    }

    function LatestHash(): string
      reads this
    {
      HeadOf(entries)
    }

    /** One entry more for `receipt`; the log stays chained if it was, and the new entry's hash
        is the head. */
    method Append(c: Codec, receipt: string) returns (e: Entry)
      modifies this
      ensures e.receipt == receipt && entries == old(entries) + [e]
      ensures Chained(c, old(entries)) ==> Chained(c, entries)
      ensures LatestHash() == e.hash == EntryHash(c, |old(entries)|, old(LatestHash()), receipt)
    {
      var position, prev := |entries|, LatestHash();
      e := Entry(position, prev, EntryHash(c, position, prev, receipt), receipt);
      entries := entries + [e];
      ChainedOneMore(c, entries, position);
      assert entries[..position] == old(entries) && entries[..position + 1] == entries;
    }
  }

  // ----- A head determines the log -----

  lemma NatTextDetermines(m: nat, n: nat)
    requires NatText(m) == NatText(n)
    ensures m == n
  {
    assert Units(NatText(m)) == Units(NatText(n));
  }

  /** The text that is hashed determines the position, the previous hash and the receipt,
      provided no previous hash holds a colon; a receipt may. */
  lemma EntryTextDetermines(i: nat, p: string, r: string, j: nat, q: string, t: string)
    requires EntryText(i, p, r) == EntryText(j, q, t) && ':' !in p && ':' !in q
    ensures i == j && p == q && r == t
  {
    DigitsHaveNo(NatText(i), ':');
    DigitsHaveNo(NatText(j), ':');
    assert EntryText(i, p, r) == NatText(i) + ":" + (p + ":" + r);
    assert EntryText(j, q, t) == NatText(j) + ":" + (q + ":" + t);
    CutAt(':', NatText(i), p + ":" + r, NatText(j), q + ":" + t);
    NatTextDetermines(i, j);
    CutAt(':', p, r, q, t);
  }

  lemma HeadHasNoColon(c: Codec, entries: seq<Entry>)
    requires DigestSound(c) && Chained(c, entries)
    ensures ':' !in HeadOf(entries) && (entries != [] ==> HeadOf(entries) != "")
  {
    if entries != [] {
      var last := |entries| - 1;
      assert FaultAt(c, entries, last) == None;
      TokenHas(HeadOf(entries), ':');
    }
  }

  lemma ChainedPrefix(c: Codec, entries: seq<Entry>, n: nat)
    requires Chained(c, entries) && n <= |entries|
    ensures Chained(c, entries[..n])
  {
    forall i | 0 <= i < n ensures FaultAt(c, entries[..n], i) == None {
      assert entries[..n][..i] == entries[..i];
      assert FaultAt(c, entries, i) == None;
    }
  }

  /** Two chained logs with one head are the same log. */
  lemma {:induction false} HeadDeterminesLog(c: Codec, a: seq<Entry>, b: seq<Entry>)
    requires DigestSound(c) && Chained(c, a) && Chained(c, b) && HeadOf(a) == HeadOf(b)
    ensures a == b
    decreases |a|
  {
    HeadHasNoColon(c, a);
    HeadHasNoColon(c, b);
    if a != [] {
      var m, n := |a| - 1, |b| - 1;
      ChainedPrefix(c, a, m);
      ChainedPrefix(c, b, n);
      HeadHasNoColon(c, a[..m]);
      HeadHasNoColon(c, b[..n]);
      assert FaultAt(c, a, m) == None && FaultAt(c, b, n) == None;
      EntryTextDetermines(m, a[m].prev, a[m].receipt, n, b[n].prev, b[n].receipt);
      HeadDeterminesLog(c, a[..m], b[..n]);
      assert a == a[..m] + [a[m]] && b == b[..n] + [b[n]];
    }
  }

  /** A chained log whose head is the hash of an entry of another is the other log up to and
      including that entry. */
  lemma HeadDeterminesPrefix(c: Codec, a: seq<Entry>, b: seq<Entry>, k: nat)
    requires DigestSound(c) && Chained(c, a) && Chained(c, b) && k < |b| && HeadOf(a) == b[k].hash
    ensures a == b[..k + 1]
  {
    ChainedPrefix(c, b, k + 1);
    HeadDeterminesLog(c, a, b[..k + 1]);
  }

  /** Whoever kept the head of a chained log detects any change: another log of whatever
      length either fails to verify or verifies to another head. */
  lemma ChangeIsDetected(c: Codec, a: seq<Entry>, b: seq<Entry>)
    requires DigestSound(c) && Chained(c, a) && a != b
    ensures !Chained(c, b) || HeadOf(b) != HeadOf(a)
  {
    if Chained(c, b) && HeadOf(b) == HeadOf(a) {
      HeadDeterminesLog(c, a, b);
    }
  }
}
