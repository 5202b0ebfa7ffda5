/** Remarks, logs of remarks, and the order they are read in. */
module Log {

  datatype Remark = Remark(blockNumber: nat, signer: string, text: string)

  /** The remarks of one block, in the order the log holds them. */
  function AtBlock(rs: seq<Remark>, b: nat): seq<Remark> {
    if rs == [] then []
    else if rs[0].blockNumber == b then [rs[0]] + AtBlock(rs[1..], b)
    else AtBlock(rs[1..], b)
  }

  lemma {:induction false} AtBlockMembers(rs: seq<Remark>, b: nat)
    ensures forall r :: r in AtBlock(rs, b) <==> r in rs && r.blockNumber == b
  {
    if rs != [] {
      AtBlockMembers(rs[1..], b);
      assert rs == [rs[0]] + rs[1..];
    }
  }

  ghost predicate InBlockOrder(rs: seq<Remark>) {
    forall i, j :: 0 <= i < j < |rs| ==> rs[i].blockNumber <= rs[j].blockNumber
  }

  /** The same remarks in each block, in the same order: what a reordering may not change. */
  ghost predicate SameBlocks(xs: seq<Remark>, ys: seq<Remark>) {
    forall b: nat :: AtBlock(xs, b) == AtBlock(ys, b)
  }

  function Seen(rs: seq<Remark>): set<Remark> { set r | r in rs }

  lemma SameBlocksSameSet(xs: seq<Remark>, ys: seq<Remark>)
    requires SameBlocks(xs, ys)
    ensures Seen(xs) == Seen(ys)
  {
    forall r: Remark ensures r in xs <==> r in ys {
      AtBlockMembers(xs, r.blockNumber);
      AtBlockMembers(ys, r.blockNumber);
      assert r in AtBlock(xs, r.blockNumber) <==> r in AtBlock(ys, r.blockNumber);
    }
  }

  lemma {:induction false} AtBlockAppend(xs: seq<Remark>, ys: seq<Remark>, b: nat)
    ensures AtBlock(xs + ys, b) == AtBlock(xs, b) + AtBlock(ys, b)
  {
    if xs == [] {
      assert xs + ys == ys;
    } else {
      AtBlockAppend(xs[1..], ys, b);
      assert (xs + ys)[1..] == xs[1..] + ys;
    }
  }

  lemma {:induction false} AtBlockAll(rs: seq<Remark>, b: nat)
    requires forall r :: r in rs ==> r.blockNumber == b
    ensures AtBlock(rs, b) == rs
  {
    if rs != [] {
      AtBlockAll(rs[1..], b);
    }
  }

  lemma {:induction false} AtBlockNone(rs: seq<Remark>, b: nat)
    requires forall r :: r in rs ==> r.blockNumber != b
    ensures AtBlock(rs, b) == []
  {
    if rs != [] {
      AtBlockNone(rs[1..], b);
    }
  }

  lemma AtBlockCons(x: Remark, rs: seq<Remark>, b: nat)
    ensures AtBlock([x] + rs, b) == (if x.blockNumber == b then [x] else []) + AtBlock(rs, b)
  {
    assert ([x] + rs)[1..] == rs;
  }

  lemma SameBlocksTail(xs: seq<Remark>, ys: seq<Remark>)
    requires xs != [] && ys != [] && xs[0] == ys[0] && SameBlocks(xs, ys)
    ensures SameBlocks(xs[1..], ys[1..])
  {
    forall b: nat ensures AtBlock(xs[1..], b) == AtBlock(ys[1..], b) {
      assert AtBlock(xs, b) == AtBlock(ys, b);
      if b == xs[0].blockNumber {
        assert AtBlock(xs, b)[1..] == AtBlock(xs[1..], b);
        assert AtBlock(ys, b)[1..] == AtBlock(ys[1..], b);
      }
    }
  }

  /** A log in block order is fixed by what each block holds. */
  lemma {:induction false} OrderedLogUnique(xs: seq<Remark>, ys: seq<Remark>)
    requires InBlockOrder(xs) && InBlockOrder(ys) && SameBlocks(xs, ys)
    ensures xs == ys
  {
    SameBlocksSameSet(xs, ys);
    assert xs != [] ==> xs[0] in Seen(xs) && xs[0] in ys;
    assert ys != [] ==> ys[0] in Seen(ys) && ys[0] in xs;
    if xs != [] && ys != [] {
      var m := xs[0].blockNumber;
      assert ys[0].blockNumber == m;
      assert AtBlock(xs, m)[0] == xs[0] && AtBlock(ys, m)[0] == ys[0];
      SameBlocksTail(xs, ys);
      OrderedLogUnique(xs[1..], ys[1..]);
      assert xs == [xs[0]] + xs[1..] && ys == [ys[0]] + ys[1..];
    }
  }

  lemma OrderedAppendIff(xs: seq<Remark>, ys: seq<Remark>)
    ensures InBlockOrder(xs + ys) <==>
            InBlockOrder(xs) && InBlockOrder(ys) && forall x, y :: x in xs && y in ys ==> x.blockNumber <= y.blockNumber
  {
    var all := xs + ys;
    if InBlockOrder(all) {
      forall i, j | 0 <= i < j < |xs| ensures xs[i].blockNumber <= xs[j].blockNumber {
        assert all[i] == xs[i] && all[j] == xs[j];
      }
      forall i, j | 0 <= i < j < |ys| ensures ys[i].blockNumber <= ys[j].blockNumber {
        assert all[|xs| + i] == ys[i] && all[|xs| + j] == ys[j];
      }
      forall x, y | x in xs && y in ys ensures x.blockNumber <= y.blockNumber {
        var i, j :| 0 <= i < |xs| && 0 <= j < |ys| && xs[i] == x && ys[j] == y;
        assert all[i] == x && all[|xs| + j] == y;
      }
    }
  }

  // ----- Stable sort by block number (`sort((a, b) => a.blockNumber - b.blockNumber)`) -----

  function Insert(x: Remark, rs: seq<Remark>): (out: seq<Remark>)
    ensures |out| == |rs| + 1
  {
    if rs == [] || x.blockNumber <= rs[0].blockNumber then [x] + rs
    else [rs[0]] + Insert(x, rs[1..])
  }

  function SortByBlock(rs: seq<Remark>): (out: seq<Remark>)
    ensures |out| == |rs|
  {
    if rs == [] then [] else Insert(rs[0], SortByBlock(rs[1..]))
  }

  lemma {:induction false} InsertKeepsBlocks(x: Remark, rs: seq<Remark>, b: nat)
    requires InBlockOrder(rs)
    ensures AtBlock(Insert(x, rs), b) == AtBlock([x] + rs, b)
  {
    AtBlockCons(x, rs, b);
    if rs != [] && x.blockNumber > rs[0].blockNumber {
      InsertKeepsBlocks(x, rs[1..], b);
      AtBlockCons(rs[0], Insert(x, rs[1..]), b);
      AtBlockCons(x, rs[1..], b);
    }
  }

  lemma {:induction false} InsertMembers(x: Remark, rs: seq<Remark>)
    ensures forall r :: r in Insert(x, rs) <==> r == x || r in rs
  {
    if rs != [] && x.blockNumber > rs[0].blockNumber {
      InsertMembers(x, rs[1..]);
      assert rs == [rs[0]] + rs[1..];
    }
  }

  lemma {:induction false} InsertOrders(x: Remark, rs: seq<Remark>)
    requires InBlockOrder(rs)
    ensures InBlockOrder(Insert(x, rs))
  {
    if rs != [] && x.blockNumber > rs[0].blockNumber {
      var tail := Insert(x, rs[1..]);
      InsertOrders(x, rs[1..]);
      InsertMembers(x, rs[1..]);
      assert forall i :: 0 <= i < |tail| ==> tail[i] in tail;
    }
  }

  /** Sorting puts blocks in order and changes nothing inside a block. */
  lemma {:induction false} SortIsStable(rs: seq<Remark>)
    ensures InBlockOrder(SortByBlock(rs))
    ensures SameBlocks(SortByBlock(rs), rs)
    ensures Seen(SortByBlock(rs)) == Seen(rs)
  {
    if rs != [] {
      var tail := SortByBlock(rs[1..]);
      SortIsStable(rs[1..]);
      InsertOrders(rs[0], tail);
      forall b: nat ensures AtBlock(SortByBlock(rs), b) == AtBlock(rs, b) {
        InsertKeepsBlocks(rs[0], tail, b);
        AtBlockCons(rs[0], tail, b);
        assert AtBlock(tail, b) == AtBlock(rs[1..], b);
      }
    }
    SameBlocksSameSet(SortByBlock(rs), rs);
  }

  /** Sorting sees only what each block holds. */
  lemma SortUnique(rs: seq<Remark>, out: seq<Remark>)
    requires InBlockOrder(out) && SameBlocks(out, rs)
    ensures out == SortByBlock(rs)
  {
    SortIsStable(rs);
    forall b: nat ensures AtBlock(out, b) == AtBlock(SortByBlock(rs), b) {
      assert AtBlock(out, b) == AtBlock(rs, b);
    }
    OrderedLogUnique(out, SortByBlock(rs));
  }

  lemma SortSameBlocks(xs: seq<Remark>, ys: seq<Remark>)
    requires SameBlocks(xs, ys)
    ensures SortByBlock(xs) == SortByBlock(ys)
  {
    SortIsStable(xs);
    forall b: nat ensures AtBlock(SortByBlock(xs), b) == AtBlock(ys, b) {
      assert AtBlock(xs, b) == AtBlock(ys, b);
    }
    SortUnique(ys, SortByBlock(xs));
  }

  /** `later` holds only remarks of blocks after every block of `log`. */
  ghost predicate StrictlyLater(log: seq<Remark>, later: seq<Remark>) {
    forall r, e :: r in log && e in later ==> r.blockNumber < e.blockNumber
  }

  lemma SortExtension(log: seq<Remark>, later: seq<Remark>)
    requires StrictlyLater(log, later)
    ensures SortByBlock(log + later) == SortByBlock(log) + SortByBlock(later)
  {
    var s, t := SortByBlock(log), SortByBlock(later);
    SortIsStable(log);
    SortIsStable(later);
    assert forall r :: r in s ==> r in Seen(s);
    assert forall r :: r in t ==> r in Seen(t);
    forall b: nat ensures AtBlock(s + t, b) == AtBlock(log + later, b) {
      AtBlockAppend(s, t, b);
      AtBlockAppend(log, later, b);
    }
    forall i, j | 0 <= i < j < |s + t| ensures (s + t)[i].blockNumber <= (s + t)[j].blockNumber {
      if i < |s| <= j {
        assert s[i] in Seen(log) && t[j - |s|] in Seen(later);
      }
    }
    SortUnique(log + later, s + t);
  }

  // ----- The remarks below a block, and the others -----

  /** `remarks.filter((r) => r.blockNumber < limit)` */
  function Below(rs: seq<Remark>, limit: int): seq<Remark> {
    if rs == [] then []
    else (if rs[0].blockNumber < limit then [rs[0]] else []) + Below(rs[1..], limit)
  }

  function IfBelow(rs: seq<Remark>, limit: int, b: nat): seq<Remark> { if b < limit then AtBlock(rs, b) else [] }

  lemma {:induction false} BelowBlocks(rs: seq<Remark>, limit: int, b: nat)
    ensures AtBlock(Below(rs, limit), b) == IfBelow(rs, limit, b)
  {
    if rs != [] {
      BelowBlocks(rs[1..], limit, b);
      if rs[0].blockNumber < limit {
        AtBlockCons(rs[0], Below(rs[1..], limit), b);
      } else {
        assert Below(rs, limit) == Below(rs[1..], limit);
      }
    }
  }

  lemma {:induction false} BelowMembers(rs: seq<Remark>, limit: int)
    ensures forall r :: r in Below(rs, limit) <==> r in rs && r.blockNumber < limit
  {
    if rs != [] {
      BelowMembers(rs[1..], limit);
      assert rs == [rs[0]] + rs[1..];
    }
  }

  lemma {:induction false} BelowOrdered(rs: seq<Remark>, limit: int)
    requires InBlockOrder(rs)
    ensures InBlockOrder(Below(rs, limit))
  {
    if rs != [] {
      BelowOrdered(rs[1..], limit);
      BelowMembers(rs[1..], limit);
      var first := if rs[0].blockNumber < limit then [rs[0]] else [];
      OrderedAppendIff([rs[0]], rs[1..]);
      assert rs == [rs[0]] + rs[1..];
      OrderedAppendIff(first, Below(rs[1..], limit));
    }
  }

  function AtOrAbove(rs: seq<Remark>, limit: int): seq<Remark> {
    if rs == [] then []
    else (if rs[0].blockNumber < limit then [] else [rs[0]]) + AtOrAbove(rs[1..], limit)
  }

  function UnlessBelow(rs: seq<Remark>, limit: int, b: nat): seq<Remark> { if b < limit then [] else AtBlock(rs, b) }

  lemma {:induction false} AtOrAboveBlocks(rs: seq<Remark>, limit: int, b: nat)
    ensures AtBlock(AtOrAbove(rs, limit), b) == UnlessBelow(rs, limit, b)
  {
    if rs != [] {
      AtOrAboveBlocks(rs[1..], limit, b);
      if rs[0].blockNumber < limit {
        assert AtOrAbove(rs, limit) == AtOrAbove(rs[1..], limit);
      } else {
        AtBlockCons(rs[0], AtOrAbove(rs[1..], limit), b);
      }
    }
  }

  lemma {:induction false} AtOrAboveMembers(rs: seq<Remark>, limit: int)
    ensures forall r :: r in AtOrAbove(rs, limit) ==> r.blockNumber >= limit
  {
    if rs != [] {
      AtOrAboveMembers(rs[1..], limit);
    }
  }

  lemma SplitAtBlock(rs: seq<Remark>, limit: int)
    ensures SameBlocks(Below(rs, limit) + AtOrAbove(rs, limit), rs)
    ensures StrictlyLater(Below(rs, limit), AtOrAbove(rs, limit))
  {
    forall b: nat ensures AtBlock(Below(rs, limit) + AtOrAbove(rs, limit), b) == AtBlock(rs, b) {
      AtBlockAppend(Below(rs, limit), AtOrAbove(rs, limit), b);
      BelowBlocks(rs, limit, b);
      AtOrAboveBlocks(rs, limit, b);
    }
    BelowMembers(rs, limit);
    AtOrAboveMembers(rs, limit);
  }

  // ----- The plain sequential scan of a chain -----

  type Chain = nat -> seq<Remark>

  /** Every remark carries the number of the block it is in. */
  ghost predicate NumberedChain(chain: Chain) {
    forall n: nat, r :: r in chain(n) ==> r.blockNumber == n
  }

  /** Blocks `from..upTo`, one after the other, taking only those in `got`. */
  function ScanSome(chain: Chain, from: nat, upTo: int, got: set<nat>): seq<Remark>
    decreases upTo - from
  {
    if upTo < from then []
    else ScanSome(chain, from, upTo - 1, got) + (if upTo in got then chain(upTo) else [])
  }

  function Scan(chain: Chain, from: nat, upTo: int): seq<Remark>
    decreases upTo - from
  {
    if upTo < from then [] else Scan(chain, from, upTo - 1) + chain(upTo)
  }

  /** What block `b` contributes to that scan. */
  function Taken(chain: Chain, from: nat, upTo: int, got: set<nat>, b: nat): seq<Remark> {
    if from <= b <= upTo && b in got then chain(b) else []
  }

  lemma {:induction false} ScanSomeBlock(chain: Chain, from: nat, upTo: int, got: set<nat>, b: nat)
    requires NumberedChain(chain)
    ensures AtBlock(ScanSome(chain, from, upTo, got), b) == Taken(chain, from, upTo, got, b)
    decreases upTo - from
  {
    if from <= upTo {
      ScanSomeBlock(chain, from, upTo - 1, got, b);
      var last := if upTo in got then chain(upTo) else [];
      AtBlockAppend(ScanSome(chain, from, upTo - 1, got), last, b);
      if b == upTo { AtBlockAll(last, b); } else { AtBlockNone(last, b); }
    }
  }

  lemma AppendOrdered(xs: seq<Remark>, ys: seq<Remark>, n: nat)
    requires InBlockOrder(xs) && forall i :: 0 <= i < |xs| ==> xs[i].blockNumber < n
    requires forall j :: 0 <= j < |ys| ==> ys[j].blockNumber == n
    ensures InBlockOrder(xs + ys)
  {}

  lemma {:induction false} ScanSomeOrdered(chain: Chain, from: nat, upTo: int, got: set<nat>)
    requires NumberedChain(chain)
    ensures InBlockOrder(ScanSome(chain, from, upTo, got))
    ensures forall r :: r in ScanSome(chain, from, upTo, got) ==> from <= r.blockNumber <= upTo
    decreases upTo - from
  {
    if from <= upTo {
      var front, last := ScanSome(chain, from, upTo - 1, got), if upTo in got then chain(upTo) else [];
      ScanSomeOrdered(chain, from, upTo - 1, got);
      forall i | 0 <= i < |front| ensures front[i].blockNumber < upTo { assert front[i] in front; }
      forall i | 0 <= i < |last| ensures last[i].blockNumber == upTo { assert last[i] in chain(upTo); }
      AppendOrdered(front, last, upTo);
    }
  }

  lemma ScanSomeBlocks(chain: Chain, from: nat, upTo: int, got: set<nat>)
    requires NumberedChain(chain)
    ensures InBlockOrder(ScanSome(chain, from, upTo, got))
    ensures forall r :: r in ScanSome(chain, from, upTo, got) ==> from <= r.blockNumber <= upTo
    ensures forall b: nat :: AtBlock(ScanSome(chain, from, upTo, got), b) == Taken(chain, from, upTo, got, b)
  {
    ScanSomeOrdered(chain, from, upTo, got);
    forall b: nat ensures AtBlock(ScanSome(chain, from, upTo, got), b) == Taken(chain, from, upTo, got, b) {
      ScanSomeBlock(chain, from, upTo, got, b);
    }
  }

  lemma {:induction false} ScanAllBlocks(chain: Chain, from: nat, upTo: int, got: set<nat>)
    requires forall b: nat :: from <= b <= upTo ==> b in got
    ensures ScanSome(chain, from, upTo, got) == Scan(chain, from, upTo)
    decreases upTo - from
  {
    if from <= upTo {
      ScanAllBlocks(chain, from, upTo - 1, got);
    }
  }

  function BlockRange(from: nat, upTo: int): (s: set<nat>)
    ensures forall b: nat :: b in s <==> from <= b <= upTo
    decreases upTo - from
  {
    if upTo < from then {} else BlockRange(from, upTo - 1) + {upTo}
  }

  lemma ScanBlocks(chain: Chain, from: nat, upTo: int)
    requires NumberedChain(chain)
    ensures InBlockOrder(Scan(chain, from, upTo))
    ensures forall r: Remark :: r in Scan(chain, from, upTo) <==> from <= r.blockNumber <= upTo && r in chain(r.blockNumber)
    ensures forall b: nat :: AtBlock(Scan(chain, from, upTo), b) == Taken(chain, from, upTo, BlockRange(from, upTo), b)
  {
    var all := BlockRange(from, upTo);
    ScanAllBlocks(chain, from, upTo, all);
    ScanSomeBlocks(chain, from, upTo, all);
    var s := Scan(chain, from, upTo);
    forall r: Remark ensures r in s <==> from <= r.blockNumber <= upTo && r in chain(r.blockNumber) {
      AtBlockMembers(s, r.blockNumber);
      assert AtBlock(s, r.blockNumber) == Taken(chain, from, upTo, all, r.blockNumber);
    }
  }

  lemma ScanExtends(chain: Chain, from: nat, mid: int, upTo: int)
    requires from - 1 <= mid <= upTo
    ensures Scan(chain, from, upTo) == Scan(chain, from, mid) + Scan(chain, mid + 1, upTo)
    decreases upTo - mid
  {
    if mid == upTo {
    } else {
      ScanExtends(chain, from, mid, upTo - 1);
      assert Scan(chain, mid + 1, upTo) == Scan(chain, mid + 1, upTo - 1) + chain(upTo);
      assert Scan(chain, from, upTo) == Scan(chain, from, upTo - 1) + chain(upTo);
    }
  }
}
