/**
 * The translation-lookaside buffer: a fully-associative cache of
 * (in_use, VPN, PFN) rows with a circular write cursor.
 * The functions give the meaning of each operation on the rows;
 * class TLB performs them in place on an array.
 */
module Tlb {
  import opened Wrappers
  import opened Arch
  import opened Trace

  /** One TLB row; a row is never freed, only overwritten. */
  datatype Row = Row(inUse: bool, vpn: nat, pfn: nat)

  /** A row as the buffer is created: free, VPN 0, PFN 0. */
  const FREE_ROW := Row(false, 0, 0)

  /** What a scan looks for: an in-use row with this VPN, or with this PFN. */
  datatype Key = ByVpn(vpn: nat) | ByPfn(pfn: nat)

  predicate Matches(r: Row, key: Key)
  {
    r.inUse &&
    match key
    case ByVpn(v) => r.vpn == v
    case ByPfn(f) => r.pfn == f
  }

  /** The index of the first row that matches, or |rows| when none does. */
  function FirstMatch(rows: seq<Row>, key: Key): (k: nat)
    ensures k <= |rows|
    ensures forall j :: 0 <= j < k ==> !Matches(rows[j], key)
    ensures k < |rows| ==> Matches(rows[k], key)
  {
    if rows == [] then 0
    else if Matches(rows[0], key) then 0
    else 1 + FirstMatch(rows[1..], key)
  }

  /** The rows and the write cursor. */
  datatype TlbState = TlbState(rows: seq<Row>, cursor: nat)

  predicate WellFormed(t: TlbState)
  {
    |t.rows| == MAX_PHYSICAL_PAGES && t.cursor < MAX_PHYSICAL_PAGES
  }

  /** The buffer right after construction. */
  function InitTlb(): (t: TlbState)
    ensures WellFormed(t) && t.cursor == 0
    ensures forall vpn: nat :: Lookup(t.rows, vpn).None?
  {
    TlbState(seq(MAX_PHYSICAL_PAGES, _ => FREE_ROW), 0)
  }

  /** A lookup hits exactly when some in-use row holds the VPN, and then answers the PFN of the first such row. */
  function Lookup(rows: seq<Row>, vpn: nat): (r: Option<nat>)
    ensures r.None? <==> forall i :: 0 <= i < |rows| ==> !Matches(rows[i], ByVpn(vpn))
    ensures r.Some? ==> exists i ::
      && 0 <= i < |rows| && Matches(rows[i], ByVpn(vpn)) && rows[i].pfn == r.value
      && forall j :: 0 <= j < i ==> !Matches(rows[j], ByVpn(vpn))
  {
    var k := FirstMatch(rows, ByVpn(vpn));
    if k < |rows| then Some(rows[k].pfn) else None
  }

  /**
   * Installing (pfn, vpn): an in-use row already holding pfn is retargeted to vpn;
   * otherwise the row under the cursor is overwritten and the cursor advances.
   */
  function Install(t: TlbState, pfn: nat, vpn: nat): (t': TlbState)
    requires WellFormed(t)
    ensures WellFormed(t')
  {
    var k := FirstMatch(t.rows, ByPfn(pfn));
    if k < |t.rows| then TlbState(t.rows[k := t.rows[k].(vpn := vpn)], t.cursor)
    else TlbState(t.rows[t.cursor := Row(true, vpn, pfn)], NextSlot(t.cursor))
  }

  /** No two in-use rows hold the same frame. */
  predicate FramesDistinct(rows: seq<Row>)
  {
    forall i, j :: 0 <= i < j < |rows| && rows[i].inUse && rows[j].inUse ==> rows[i].pfn != rows[j].pfn
  }

  /**
   * The two branches of Install. When an in-use row holds pfn, only the first such
   * row's VPN changes and the cursor stays; otherwise exactly the row under the cursor becomes
   * (in use, vpn, pfn) and the cursor moves one step round the buffer.
   */
  lemma InstallBranches(t: TlbState, pfn: nat, vpn: nat)
    requires WellFormed(t)
    ensures var t' := Install(t, pfn, vpn);
      if exists i :: 0 <= i < |t.rows| && Matches(t.rows[i], ByPfn(pfn)) then
        t'.cursor == t.cursor &&
        exists i ::
          && 0 <= i < |t.rows| && Matches(t.rows[i], ByPfn(pfn)) && t'.rows == t.rows[i := Row(true, vpn, pfn)]
          && forall j :: 0 <= j < i ==> !Matches(t.rows[j], ByPfn(pfn))
      else
        t'.rows == t.rows[t.cursor := Row(true, vpn, pfn)] && t'.cursor == (t.cursor + 1) % MAX_PHYSICAL_PAGES
  {
    var k := FirstMatch(t.rows, ByPfn(pfn));
    if k < |t.rows| {
      assert t.rows[k].(vpn := vpn) == Row(true, vpn, pfn);
    }
  }

  /**
   * After an install the frame pfn is described by exactly one in-use row, which maps vpn;
   * every in-use row for another frame was already there; frames stay distinct.
   */
  lemma InstallRewritesFrame(t: TlbState, pfn: nat, vpn: nat)
    requires WellFormed(t) && FramesDistinct(t.rows)
    ensures var t' := Install(t, pfn, vpn);
      && FramesDistinct(t'.rows)
      && (exists i :: 0 <= i < |t'.rows| && t'.rows[i] == Row(true, vpn, pfn))
      && (forall i :: 0 <= i < |t'.rows| && t'.rows[i].inUse && t'.rows[i].pfn == pfn ==> t'.rows[i].vpn == vpn)
      && (forall i :: 0 <= i < |t'.rows| && t'.rows[i].inUse && t'.rows[i].pfn != pfn ==> t'.rows[i] == t.rows[i])
  {
    var t' := Install(t, pfn, vpn);
    var k := FirstMatch(t.rows, ByPfn(pfn));
    if k < |t.rows| {
      assert t'.rows[k] == Row(true, vpn, pfn);
      assert forall i :: 0 <= i < |t.rows| && i != k && t.rows[i].inUse ==> t.rows[i].pfn != pfn;
    } else {
      assert t'.rows[t.cursor] == Row(true, vpn, pfn);
      forall i | 0 <= i < |t'.rows| && i != t.cursor && t'.rows[i].inUse
        ensures t'.rows[i].pfn != pfn
      {
        assert !Matches(t.rows[i], ByPfn(pfn));
      }
    }
  }

  /** The diagnostic dump: every slot in index order, with its status and VPN. */
  function TlbRows(rows: seq<Row>): (d: seq<Event>)
    ensures |d| == |rows|
    ensures forall i :: 0 <= i < |rows| ==> d[i] == TlbRow(i, rows[i].inUse, rows[i].vpn)
  {
    seq(|rows|, i requires 0 <= i < |rows| => TlbRow(i, rows[i].inUse, rows[i].vpn))
  }

  class TLB {
    const buffer: array<Row>
    var bufferIterator: nat
    /** Set by a missed lookup, cleared when read. */
    var cacheError: bool

    ghost predicate Valid()
      reads this
    {
      buffer.Length == MAX_PHYSICAL_PAGES && bufferIterator < MAX_PHYSICAL_PAGES
    }

    /** The rows and the cursor as a value. */
    ghost function State(): TlbState
      reads this, buffer
    {
      TlbState(buffer[..], bufferIterator)
    }

    constructor ()
      ensures Valid() && fresh(buffer)
      ensures State() == InitTlb() && !cacheError
    {
      buffer := new Row[MAX_PHYSICAL_PAGES](_ => FREE_ROW);
      bufferIterator := 0;
      cacheError := false;
    }

    /** The dump line of one slot; nothing for an index past the end. */
    method ReadBuffer(tranPage: nat) returns (events: seq<Event>)
      requires Valid()
      ensures tranPage < MAX_PHYSICAL_PAGES ==> events == [TlbRows(buffer[..])[tranPage]]
      ensures tranPage >= MAX_PHYSICAL_PAGES ==> events == []
    {
      events := [];
      if tranPage < buffer.Length {
        events := [TlbRow(tranPage, buffer[tranPage].inUse, buffer[tranPage].vpn)];
      }
    }

    method GetBufferSize() returns (n: nat)
      requires Valid()
      ensures n == MAX_PHYSICAL_PAGES
    {
      n := buffer.Length;
    }

    /** Read-and-clear of the miss flag. */
    method GetCacheError() returns (err: bool)
      modifies this`cacheError
      ensures err == old(cacheError) && !cacheError
    {
      err := cacheError;
      cacheError := false;
    }

    /**
     * Linear scan for an in-use row with the VPN. On a hit returns its PFN;
     * on a miss returns 0 and raises the miss flag. The rows are not touched.
     */
    method FetchPageBuffer(pageNumber: nat) returns (frameNumber: nat)
      requires Valid()
      modifies this`cacheError
      ensures frameNumber == match Lookup(buffer[..], pageNumber) case Some(f) => f case None => 0
      ensures cacheError == (old(cacheError) || Lookup(buffer[..], pageNumber).None?)
    {
      frameNumber := 0;
      var hit := false;
      var i := 0;
      while i < buffer.Length
        invariant 0 <= i <= buffer.Length
        invariant forall j :: 0 <= j < i ==> !Matches(buffer[j], ByVpn(pageNumber))
      {
        if buffer[i].vpn == pageNumber && buffer[i].inUse {
          frameNumber := buffer[i].pfn;
          hit := true;
          break;
        }
        i := i + 1;
      }
      assert FirstMatch(buffer[..], ByVpn(pageNumber)) == i;
      if !hit {
        cacheError := true;
      }
    }

    /** Installs (frameNumber, pageNumber) as Install describes. */
    method WriteToBuffer(frameNumber: nat, pageNumber: nat)
      requires Valid()
      modifies this`bufferIterator, buffer
      ensures Valid()
      ensures State() == Install(old(State()), frameNumber, pageNumber)
    {
      var i := 0;
      while i < buffer.Length
        invariant 0 <= i <= buffer.Length
        invariant forall j :: 0 <= j < i ==> !Matches(buffer[j], ByPfn(frameNumber))
      {
        if buffer[i].pfn == frameNumber && buffer[i].inUse {
          buffer[i] := buffer[i].(vpn := pageNumber);
          return;
        }
        i := i + 1;
      }
      buffer[bufferIterator] := Row(true, pageNumber, frameNumber);
      bufferIterator := bufferIterator + 1;
      if bufferIterator >= MAX_PHYSICAL_PAGES {
        bufferIterator := 0;
      }
    }
  }
}
