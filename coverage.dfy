/**
 * The coverage list's records (`MemTestInfo`) and how `UpdateLstCoverage` resizes the
 * table when the thread count changes. Slot 0 holds the total, slot `i` worker `i - 1`;
 * the `valid` flag hides slots left over from a larger fleet.
 */
module Coverage {
  import opened Base
  import opened Digits
  import opened Fleet

  /** One row of the coverage list: label, coverage in percent, errors, and whether it is shown. */
  datatype MemTestInfo = MemTestInfo(no: string, coverage: real, errors: int, valid: bool)

  /** The record `InitLstCoverage` puts in slot `i`: "T" for the total, else the slot number. */
  function InitialRecord(i: nat): MemTestInfo {
    MemTestInfo(if i == 0 then "T" else Decimal(i), 0.0, 0, true)
  }

  /** The record `UpdateLstCoverage` creates in slot `i`. */
  function FreshRecord(i: nat): MemTestInfo {
    MemTestInfo(Decimal(i), 0.0, 0, true)
  }

  /** A record after a tick has copied a worker's snapshot into it. */
  function WithSnapshot(m: MemTestInfo, s: Snapshot): MemTestInfo {
    m.(coverage := s.coverage, errors := s.errors)
  }

  /** A slot that `m != null && m.Valid` accepts. */
  predicate IsValidRecord(o: Option<MemTestInfo>) {
    o.Some? && o.value.valid
  }

  /** `items.Count(m => m != null && m.Valid)`. */
  function CountValid(items: seq<Option<MemTestInfo>>): (n: nat)
    ensures n <= |items|
    decreases |items|
  {
    if items == [] then 0
    else CountValid(items[..|items| - 1]) + (if IsValidRecord(items[|items| - 1]) then 1 else 0)
  }

  /** The valid records are exactly the slots `0 .. c - 1`. */
  predicate ValidPrefix(items: seq<Option<MemTestInfo>>, c: nat) {
    c <= |items| && forall j :: 0 <= j < |items| ==> (IsValidRecord(items[j]) <==> j < c)
  }

  /** Slot 0 is the total, labelled "T", and every other record is labelled with its slot number. */
  predicate Labelled(items: seq<Option<MemTestInfo>>) {
    && |items| > 0 && items[0].Some? && items[0].value.no == "T"
    && forall j :: 1 <= j < |items| && items[j].Some? ==> items[j].value.no == Decimal(j)
  }

  /** On a table whose valid records form a prefix, the count is the prefix's length. */
  lemma {:induction false} CountValidOfPrefix(items: seq<Option<MemTestInfo>>, c: nat, n: nat)
    requires ValidPrefix(items, c) && n <= |items|
    ensures CountValid(items[..n]) == if n < c then n else c
    decreases n
  {
    if n > 0 {
      assert items[..n][..n - 1] == items[..n - 1];
      CountValidOfPrefix(items, c, n - 1);
    }
  }

  /** What `UpdateLstCoverage` needs to run without a null dereference. */
  predicate ResizeDefined(items: seq<Option<MemTestInfo>>, threads: nat) {
    threads < |items| && forall j :: threads < j < CountValid(items) ==> items[j].Some?
  }

  /** A record with its `Valid` flag cleared; `UpdateLstCoverage` never does this to a null slot. */
  function Hidden(o: Option<MemTestInfo>): Option<MemTestInfo> {
    match o
    case Some(m) => Some(m.(valid := false))
    case None => None
  }

  /**
   * The table after `UpdateLstCoverage` for `threads` workers: with more valid records than
   * that, the ones from `threads + 1` up to the count are hidden; otherwise the slots from
   * the count up to `threads` get new records.
   */
  function Resized(items: seq<Option<MemTestInfo>>, threads: nat): (r: seq<Option<MemTestInfo>>)
    ensures |r| == |items|
  {
    var count := CountValid(items);
    seq(|items|, j requires 0 <= j < |items| =>
      if count > threads then
        (if threads < j < count then Hidden(items[j]) else items[j])
      else
        (if count <= j <= threads then Some(FreshRecord(j)) else items[j]))
  }

  /**
   * Resizing a table whose valid records are the slots `0 .. c - 1`: afterwards the valid
   * records are exactly the slots `0 .. threads`; records that were valid and stay in range
   * are untouched; the slots that become valid hold new zero records labelled with their
   * number; the slots that drop out keep their values but are hidden; nothing else changes.
   */
  lemma ResizePreservesPrefix(items: seq<Option<MemTestInfo>>, c: nat, threads: nat)
    requires ValidPrefix(items, c) && threads < |items|
    ensures ResizeDefined(items, threads)
    ensures ValidPrefix(Resized(items, threads), threads + 1)
    ensures forall j :: 0 <= j <= threads && j < c ==> Resized(items, threads)[j] == items[j]
    ensures forall j :: c <= j <= threads ==> Resized(items, threads)[j] == Some(FreshRecord(j))
    ensures forall j :: threads < j < c ==>
              Resized(items, threads)[j] == Some(items[j].value.(valid := false))
    ensures forall j :: 0 <= j < |items| && j >= c && j > threads ==> Resized(items, threads)[j] == items[j]
    ensures c >= 1 && Labelled(items) ==> Labelled(Resized(items, threads))
  {
    CountValidOfPrefix(items, c, |items|);
    assert items[..|items|] == items;
  }

  /** A record updated by a tick from a worker's window, when the slot and the window are there. */
  function RefreshSlot(o: Option<MemTestInfo>, w: Option<Worker>): Option<MemTestInfo> {
    if o.Some? && Readable(w) then Some(WithSnapshot(o.value, Snap(w))) else o
  }

  /** The table after a tick has read the first `n` workers: slot `j` copies worker `j - 1`. */
  function Refreshed(items: seq<Option<MemTestInfo>>, ws: seq<Option<Worker>>, n: nat): (r: seq<Option<MemTestInfo>>)
    ensures |r| == |items|
  {
    seq(|items|, j requires 0 <= j < |items| =>
      if 1 <= j <= n && j - 1 < |ws| then RefreshSlot(items[j], ws[j - 1]) else items[j])
  }

  /** Reading one more worker refreshes one more slot. */
  lemma RefreshStep(items: seq<Option<MemTestInfo>>, ws: seq<Option<Worker>>, n: nat)
    requires n + 1 < |items| && n < |ws|
    ensures Refreshed(items, ws, n)[n + 1 := RefreshSlot(items[n + 1], ws[n])] == Refreshed(items, ws, n + 1)
  {
  }

  /**
   * A tick that has read `n` readable workers leaves the total and the slots above `n`
   * alone, gives each slot `1 .. n` its worker's coverage and errors, and keeps every
   * record's label and flag, so the valid records and the labels stay as they were.
   */
  lemma RefreshedKeepsShape(items: seq<Option<MemTestInfo>>, c: nat, ws: seq<Option<Worker>>, n: nat)
    requires ValidPrefix(items, c) && Labelled(items) && n < c && n <= |ws|
    requires forall j :: 0 <= j < n ==> Readable(ws[j])
    ensures ValidPrefix(Refreshed(items, ws, n), c) && Labelled(Refreshed(items, ws, n))
    ensures Refreshed(items, ws, n)[0] == items[0]
    ensures forall j :: 1 <= j <= n ==>
              Refreshed(items, ws, n)[j] == Some(WithSnapshot(items[j].value, Snap(ws[j - 1])))
    ensures forall j :: n < j < |items| ==> Refreshed(items, ws, n)[j] == items[j]
  {
  }

  /** Writing the total into slot 0 keeps the valid records and the labels. */
  lemma TotalKeepsShape(items: seq<Option<MemTestInfo>>, c: nat, s: Snapshot)
    requires ValidPrefix(items, c) && Labelled(items) && 0 < c
    ensures ValidPrefix(items[0 := Some(WithSnapshot(items[0].value, s))], c)
    ensures Labelled(items[0 := Some(WithSnapshot(items[0].value, s))])
  {
  }
}
