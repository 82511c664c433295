/**
 * Table set-up of the rANS entropy coder of src/entropy/fse.c: normalisation of a histogram to
 * a table of 2^5 .. 2^11 slots, and the slot table the decoder indexes.
 */
module FseTable {
  import opened Base

  const NSYMS: nat := 256
  const L_MIN: nat := 0x1_0000
  const L_MAX: nat := 0x100_0000
  const HDR_PREFIX: nat := 16

  /* ---- Table size -------------------------------------------------------- */

  lemma TableSizes()
    ensures Pow2(5) == 32 && Pow2(6) == 64 && Pow2(7) == 128 && Pow2(8) == 256
    ensures Pow2(9) == 512 && Pow2(10) == 1024 && Pow2(11) == 2048 && Pow2(12) == 4096
    ensures Pow2(16) == L_MIN
  {
    assert Pow2(4) == 16;
    assert Pow2(8) == 256;
    assert Pow2(12) == 4096;
  }

  /** The most symbols tables of 2^5 to 2^11 slots are used for. */
  const LARGEST: seq<nat> := [2, 8, 32, 64, 128, 200, 256]

  /** The smallest table for so many symbols; each symbol could have four slots of it. */
  function PickTableLog(nActive: nat): (log: nat)
    requires nActive <= NSYMS
    ensures 5 <= log <= 11 && nActive <= LARGEST[log - 5] && (log > 5 ==> nActive > LARGEST[log - 6])
    ensures 4 * nActive <= Pow2(log) && (log > 6 ==> Pow2(log) <= 16 * nActive)
  {
    TableSizes();
    if nActive <= 2 then 5
    else if nActive <= 8 then 6
    else if nActive <= 32 then 7
    else if nActive <= 64 then 8
    else if nActive <= 128 then 9
    else if nActive <= 200 then 10
    else 11
  }

  /** More symbols never get a smaller table. */
  lemma TableLogMonotone(a: nat, b: nat)
    requires a <= b <= NSYMS
    ensures PickTableLog(a) <= PickTableLog(b)
  {
  }

  lemma TableLogFits(log: nat)
    requires 5 <= log <= 12
    ensures Pow2(16 - log) * Pow2(log) == L_MIN
    ensures 1 <= Pow2(log) <= 4096 && 1 <= Pow2(16 - log)
  {
    TableSizes();
    Pow2Add(16 - log, log);
    Pow2Monotone(log, 12);
  }

  /* ---- Normalisation ----------------------------------------------------- */

  /** A used symbol's quantised share of the table, before the counts are balanced. */
  function Share(f: nat, total: nat, size: nat): (p: nat)
    ensures p > 0 <==> f > 0 && size > 0 && total > 0
    ensures p <= size
  {
    if f == 0 || size == 0 || total == 0 then 0
    else
      MulMonotone(0, f, size);
      Min(size, Max(1, f * size / total))
  }

  function Shares(freq: seq<nat>, total: nat, size: nat): (s: seq<nat>)
    ensures |s| == |freq|
    ensures forall i :: 0 <= i < |freq| ==> s[i] == Share(freq[i], total, size)
  {
    seq(|freq|, i requires 0 <= i < |freq| => Share(freq[i], total, size))
  }

  predicate Used(norm: seq<nat>, freq: seq<nat>)
  {
    |norm| == |freq| && forall i :: 0 <= i < |norm| ==> (norm[i] > 0 <==> freq[i] > 0)
  }

  /** Counts of at most one sum to at most the number of used symbols. */
  lemma {:induction false} OnesBound(norm: seq<nat>, freq: seq<nat>)
    requires Used(norm, freq)
    requires forall i :: 0 <= i < |norm| ==> norm[i] <= 1
    ensures Sum(norm) <= ActiveCount(freq)
  {
    if norm != [] {
      OnesBound(norm[..|norm| - 1], freq[..|freq| - 1]);
    }
  }

  predicate IsLargest(freq: seq<nat>, idx: nat)
  {
    idx < |freq| && (forall i :: 0 <= i < |freq| ==> freq[i] <= freq[idx])
    && (forall i :: 0 <= i < idx ==> freq[i] < freq[idx])
  }

  /** Counts pulled down from shares, biggest first: whatever was lowered is level with the top. */
  predicate Levelled(norm: seq<nat>, shares: seq<nat>)
  {
    |norm| == |shares|
    && (forall i :: 0 <= i < |norm| ==> norm[i] <= shares[i])
    && (forall i, j :: 0 <= i < |norm| && 0 <= j < |norm| && norm[i] < shares[i] ==> norm[j] <= norm[i] + 1)
  }

  /** The shares, with the unassigned slots given to the first largest symbol. */
  ghost predicate SlackAdded(norm: seq<nat>, freq: seq<nat>, shares: seq<nat>, slack: nat)
    requires |freq| == |shares|
  {
    exists idx: nat :: IsLargest(freq, idx) && norm == shares[idx := shares[idx] + slack]
  }

  /** Counts balanced to the table size from the given shares. */
  ghost predicate Balanced(norm: seq<nat>, freq: seq<nat>, shares: seq<nat>, size: nat)
    requires |freq| == |shares|
  {
    && Used(norm, freq)
    && Sum(norm) == size
    && (Sum(shares) <= size ==> SlackAdded(norm, freq, shares, size - Sum(shares)))
    && (Sum(shares) > size ==> Levelled(norm, shares))
  }

  /** What the quantiser promises of its result. */
  ghost predicate Normalized(norm: seq<nat>, freq: seq<nat>, size: nat)
  {
    Balanced(norm, freq, Shares(freq, Total(freq), size), size)
  }

  method LargestIndex(freq: seq<nat>) returns (idx: nat)
    requires Sum(freq) > 0
    ensures IsLargest(freq, idx) && freq[idx] > 0
  {
    idx := 0;
    var best := 0;
    for i := 0 to |freq|
      invariant best > 0 ==> idx < i && freq[idx] == best
      invariant best == 0 ==> idx == 0
      invariant forall k :: 0 <= k < i ==> freq[k] <= best
      invariant best > 0 ==> forall k :: 0 <= k < idx ==> freq[k] < best
    {
      if freq[i] > best {
        best := freq[i];
        idx := i;
      }
    }
    if best == 0 {
      SumBounds(freq, 0, 0);
    }
  }

  /** The index of the first largest count above one; none when every count is at most one. */
  method LargestAboveOne(norm: array<nat>) returns (idx: int)
    ensures -1 <= idx < norm.Length
    ensures idx >= 0 ==> norm[idx] > 1 && forall k :: 0 <= k < norm.Length ==> norm[k] <= norm[idx]
    ensures idx < 0 ==> forall k :: 0 <= k < norm.Length ==> norm[k] <= 1
  {
    idx := -1;
    var best := 1;
    for i := 0 to norm.Length
      invariant -1 <= idx < i
      invariant idx >= 0 ==> norm[idx] == best > 1
      invariant idx < 0 ==> best == 1
      invariant forall k :: 0 <= k < i ==> norm[k] <= best
    {
      if norm[i] > best {
        best := norm[i];
        idx := i;
      }
    }
  }

  /** First pass: every used symbol gets its share, at least one count. */
  method Distribute(freq: seq<nat>, total: nat, size: nat, norm: array<nat>) returns (distributed: nat)
    requires norm.Length == |freq|
    requires total > 0 && size > 0
    requires forall i :: 0 <= i < norm.Length ==> norm[i] == 0
    modifies norm
    ensures norm[..] == Shares(freq, total, size) && Used(norm[..], freq)
    ensures distributed == Sum(norm[..])
  {
    ghost var shares := Shares(freq, total, size);
    distributed := 0;
    for i := 0 to |freq|
      invariant norm[..i] == shares[..i]
      invariant forall k :: i <= k < norm.Length ==> norm[k] == 0
      invariant distributed == Sum(shares[..i])
    {
      SumAppend(shares[..i], shares[i]);
      assert shares[..i + 1] == shares[..i] + [shares[i]];
      if freq[i] != 0 {
        MulMonotone(0, freq[i], size);
        var prop := freq[i] * size / total;
        if prop == 0 { prop := 1; }
        if prop > size { prop := size; }
        norm[i] := prop;
        distributed := distributed + prop;
      }
      assert norm[..i + 1] == norm[..i] + [norm[i]];
    }
    assert shares[..|freq|] == shares;
    assert norm[..|freq|] == norm[..];
  }

  /** Pulls the excess back from the biggest counts. The give-up branch is never taken. */
  method PullBack(freq: seq<nat>, size: nat, excess: nat, norm: array<nat>)
    requires norm.Length == |freq| && Used(norm[..], freq)
    requires ActiveCount(freq) <= size
    requires Sum(norm[..]) == size + excess
    modifies norm
    ensures Used(norm[..], freq)
    ensures Sum(norm[..]) == size
    ensures Levelled(norm[..], old(norm[..]))
  {
    ghost var shares := norm[..];
    var diff := -(excess as int);
    while diff < 0
      invariant diff <= 0
      invariant Sum(norm[..]) == size - diff
      invariant Used(norm[..], freq)
      invariant Levelled(norm[..], shares)
      decreases -diff
    {
      var idx := LargestAboveOne(norm);
      ghost var before := norm[..];
      if idx < 0 {
        OnesBound(norm[..], freq);
        assert false;
      }
      SumUpdate(before, idx, norm[idx] - 1);
      norm[idx] := norm[idx] - 1;
      diff := diff + 1;
      assert norm[..] == before[idx := before[idx] - 1];
      assert Levelled(norm[..], shares);
    }
  }

  method Normalize(freq: seq<nat>, size: nat, norm: array<nat>)
    requires norm.Length == |freq|
    requires Sum(freq) < U32_LIMIT
    requires 0 < size && ActiveCount(freq) <= size
    modifies norm
    ensures Sum(freq) == 0 ==> forall i :: 0 <= i < norm.Length ==> norm[i] == 0
    ensures Sum(freq) > 0 ==> Normalized(norm[..], freq, size)
  {
    SumNonNegative(freq);
    var total := 0;
    for i := 0 to |freq|
      invariant total == Sum(freq[..i])
    {
      SumAppend(freq[..i], freq[i]);
      assert freq[..i + 1] == freq[..i] + [freq[i]];
      total := total + freq[i];
    }
    assert freq[..|freq|] == freq;
    for i := 0 to norm.Length
      invariant forall k :: 0 <= k < i ==> norm[k] == 0
    {
      norm[i] := 0;
    }
    if total == 0 {
      return;
    }
    var distributed := Distribute(freq, total, size, norm);
    Balance(freq, size, distributed, norm);
  }

  /** Hands the slack to the largest count, or pulls the excess back. */
  method Balance(freq: seq<nat>, size: nat, distributed: nat, norm: array<nat>)
    requires norm.Length == |freq| && Sum(freq) > 0
    requires ActiveCount(freq) <= size
    requires Used(norm[..], freq)
    requires distributed == Sum(norm[..])
    modifies norm
    ensures Balanced(norm[..], freq, old(norm[..]), size)
  {
    hide Sum, ActiveCount, Used;
    ghost var shares := norm[..];
    var diff := size - distributed;
    if diff > 0 {
      AddSlack(freq, diff, norm);
    } else {
      PullBack(freq, size, -diff, norm);
      if diff == 0 {
        LevelledSameSum(norm[..], shares);
        SlackOfNone(freq, shares);
      }
    }
  }

  lemma SlackOfNone(freq: seq<nat>, shares: seq<nat>)
    requires |freq| == |shares| && Sum(freq) > 0
    ensures SlackAdded(shares, freq, shares, 0)
  {
    var idx := FirstLargest(freq);
    assert shares == shares[idx := shares[idx] + 0];
  }

  lemma {:induction false} FirstLargest(freq: seq<nat>) returns (idx: nat)
    requires |freq| > 0
    ensures IsLargest(freq, idx)
  {
    idx := 0;
    if |freq| > 1 {
      idx := FirstLargest(freq[..|freq| - 1]);
      if freq[|freq| - 1] > freq[idx] {
        idx := |freq| - 1;
      }
    }
  }

  method AddSlack(freq: seq<nat>, slack: nat, norm: array<nat>)
    requires norm.Length == |freq| && Sum(freq) > 0
    requires Used(norm[..], freq)
    modifies norm
    ensures SlackAdded(norm[..], freq, old(norm[..]), slack)
    ensures Used(norm[..], freq)
    ensures Sum(norm[..]) == Sum(old(norm[..])) + slack
  {
    hide Sum, SlackAdded, Used;
    ghost var shares := norm[..];
    var idx := LargestIndex(freq);
    SlackGiven(freq, shares, idx, slack);
    norm[idx] := norm[idx] + slack;
    assert norm[..] == shares[idx := shares[idx] + slack];
  }

  lemma SlackGiven(freq: seq<nat>, shares: seq<nat>, idx: nat, slack: nat)
    requires Used(shares, freq) && IsLargest(freq, idx) && freq[idx] > 0
    ensures var norm := shares[idx := shares[idx] + slack];
            SlackAdded(norm, freq, shares, slack) && Used(norm, freq) && Sum(norm) == Sum(shares) + slack
  {
    hide Sum;
    SumUpdate(shares, idx, shares[idx] + slack);
  }

  /** Counts that are nowhere above their shares and sum to the same are the shares. */
  lemma {:induction false} LevelledSameSum(norm: seq<nat>, shares: seq<nat>)
    requires |norm| == |shares| && forall i :: 0 <= i < |norm| ==> norm[i] <= shares[i]
    ensures Sum(norm) <= Sum(shares)
    ensures Sum(norm) == Sum(shares) ==> norm == shares
  {
    if norm != [] {
      var n := |norm| - 1;
      LevelledSameSum(norm[..n], shares[..n]);
      assert norm == norm[..n] + [norm[n]] && shares == shares[..n] + [shares[n]];
    }
  }

  /* ---- Cumulative counts and the slot table ------------------------------ */

  function Cum(norm: seq<nat>, s: nat): (c: nat)
    requires s <= |norm|
  {
    SumNonNegative(norm[..s]);
    Sum(norm[..s])
  }

  lemma CumStep(norm: seq<nat>, s: nat)
    requires s < |norm|
    ensures Cum(norm, s + 1) == Cum(norm, s) + norm[s]
  {
    assert norm[..s + 1][..s] == norm[..s];
  }

  lemma {:induction false} CumMonotone(norm: seq<nat>, s: nat, t: nat)
    requires s <= t <= |norm|
    ensures Cum(norm, s) <= Cum(norm, t)
    decreases t - s
  {
    if s < t {
      CumStep(norm, s);
      CumMonotone(norm, s + 1, t);
    }
  }

  /** Symbol s owns this slot. */
  predicate Owns(norm: seq<nat>, s: nat, slot: nat)
  {
    s < |norm| && Cum(norm, s) <= slot < Cum(norm, s) + norm[s]
  }

  lemma OwnerUnique(norm: seq<nat>, s: nat, t: nat, slot: nat)
    requires Owns(norm, s, slot) && Owns(norm, t, slot)
    ensures s == t
  {
    CumStep(norm, s);
    CumStep(norm, t);
    if s < t {
      CumMonotone(norm, s + 1, t);
    } else if t < s {
      CumMonotone(norm, t + 1, s);
    }
  }

  datatype Entry = Entry(symbol: nat, freq: nat, cum: nat)

  /** Slot by slot, the entry of the symbol that owns the slot. */
  predicate SlotTable(norm: seq<nat>, table: seq<Entry>)
  {
    forall j :: 0 <= j < |table| ==>
      && Owns(norm, table[j].symbol, j)
      && table[j].freq == norm[table[j].symbol]
      && table[j].cum == Cum(norm, table[j].symbol)
  }

  /** Corrupt exactly when the stored counts do not sum to the table size. */
  method BuildFatTable(norm: seq<nat>, size: nat) returns (r: Result<seq<Entry>>)
    ensures r.Err? <==> Sum(norm) != size
    ensures r.Err? ==> r.error == Corrupt
    ensures r.Ok? ==> |r.value| == size && SlotTable(norm, r.value)
  {
    var cum := new nat[|norm|];
    var acc := 0;
    for s := 0 to |norm|
      invariant acc == Cum(norm, s)
      invariant forall k :: 0 <= k < s ==> cum[k] == Cum(norm, k)
    {
      CumStep(norm, s);
      cum[s] := acc;
      acc := acc + norm[s];
    }
    assert norm[..|norm|] == norm;
    if acc != size {
      return Err(Corrupt);
    }
    var table := FillSlots(norm, cum[..], size);
    return Ok(table);
  }

  method FillSlots(norm: seq<nat>, cum: seq<nat>, size: nat) returns (table: seq<Entry>)
    requires |cum| == |norm| && forall k :: 0 <= k < |cum| ==> cum[k] == Cum(norm, k)
    requires Cum(norm, |norm|) == size
    ensures |table| == size && SlotTable(norm, table)
  {
    var entries := new Entry[size](_ => Entry(0, 0, 0));
    var p := 0;
    for s := 0 to |norm|
      invariant p == Cum(norm, s) <= size
      invariant SlotTable(norm, entries[..p])
    {
      CumStep(norm, s);
      CumMonotone(norm, s + 1, |norm|);
      for j := 0 to norm[s]
        invariant p == cum[s] + j
        invariant SlotTable(norm, entries[..p])
      {
        entries[p] := Entry(s, norm[s], cum[s]);
        p := p + 1;
      }
    }
    assert entries[..size] == entries[..];
    table := entries[..];
  }
}
