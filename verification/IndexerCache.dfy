/** The browser's snapshot store (packages/ui/src/indexer-cache.ts): one key per slot, payloads that name
    the slot they were written for. */
module IndexerCache {
  import opened Text
  import opened Log

  const SCHEMA_VERSION: nat := 1

  /** What a session holds in its refs, and what it writes to the cache. */
  datatype Snapshot = Snapshot(scannedThrough: int, remarks: seq<Remark>)

  datatype CacheSlot = CacheSlot(genesisHash: string, proposalId: string, startBlock: nat)

  datatype Payload = Payload(v: nat, slot: CacheSlot, snapshot: Snapshot)

  /** What a key holds: a payload, a value of another shape, or text that does not parse. */
  datatype Item = Stored(payload: Payload) | OtherShape | NotJson

  function StorageKey(slot: CacheSlot): string {
    "anon-vote:indexer:v1:" + slot.genesisHash + ":" + slot.proposalId + ":" + Decimal(slot.startBlock)
  }

  predicate IsValidPayload(p: Payload, slot: CacheSlot) {
    && p.v == SCHEMA_VERSION
    && p.slot.genesisHash == slot.genesisHash
    && p.slot.proposalId == slot.proposalId
    && p.slot.startBlock == slot.startBlock
    && p.snapshot.scannedThrough >= slot.startBlock - 1
  }

  /** What a read of `slot` sees in a store. */
  function Readable(items: map<string, Item>, slot: CacheSlot): Option<Snapshot> {
    if StorageKey(slot) !in items then None
    else
      match items[StorageKey(slot)]
      case Stored(p) => if IsValidPayload(p, slot) then Some(p.snapshot) else None
      case _ => None
  }

  class LocalStorage {
    var items: map<string, Item>

    constructor ()
      ensures items == map[]
    {
      items := map[];
    }

    /** Every kind of miss is `None`; text that does not parse is dropped. */
    method ReadCache(slot: CacheSlot) returns (r: Option<Snapshot>)
      modifies this
      ensures r == Readable(old(items), slot)
      ensures forall other: CacheSlot :: Readable(items, other) == Readable(old(items), other)
    {
      var key := StorageKey(slot);
      if key !in items { return None; }
      match items[key] {
        case NotJson =>
          items := items - {key};
          return None;
        case OtherShape =>
          return None;
        case Stored(p) =>
          if !IsValidPayload(p, slot) { return None; }
          return Some(p.snapshot);
      }
    }

    /** "Reset cache". */
    method ClearCache(slot: CacheSlot)
      modifies this
      ensures Readable(items, slot) == None
      ensures forall other: CacheSlot ::
                Readable(items, other) == if StorageKey(other) == StorageKey(slot) then None else Readable(old(items), other)
    {
      items := items - {StorageKey(slot)};
    }

    /** Quota errors are swallowed and the old item stays; `reliable` storage has none. */
    method WriteCache(slot: CacheSlot, snapshot: Snapshot, reliable: bool) returns (written: bool)
      modifies this
      ensures items == if written then Written(old(items), slot, snapshot) else old(items)
      ensures reliable ==> written
    {
      written := *;
      if reliable { written := true; }
      if written {
        items := items[StorageKey(slot) := Stored(Payload(SCHEMA_VERSION, slot, snapshot))];
      }
    }
  }

  /** A slot reads what it wrote last, and a write by another slot can only make it read nothing. */
  lemma ReadAfterWrite(items: map<string, Item>, slot: CacheSlot, writer: CacheSlot, snapshot: Snapshot)
    ensures slot == writer && snapshot.scannedThrough >= slot.startBlock - 1 ==>
              Readable(Written(items, writer, snapshot), slot) == Some(snapshot)
    ensures slot != writer ==>
              Readable(Written(items, writer, snapshot), slot) ==
              if StorageKey(slot) == StorageKey(writer) then None else Readable(items, slot)
  {}

  function Written(items: map<string, Item>, slot: CacheSlot, snapshot: Snapshot): map<string, Item> {
    items[StorageKey(slot) := Stored(Payload(SCHEMA_VERSION, slot, snapshot))]
  }

  /** The key of a slot, spelled out. */
  lemma StorageKeyIs(slot: CacheSlot, numeral: string)
    requires IsNumeral(numeral) && NumeralValue(numeral) == slot.startBlock
    ensures StorageKey(slot) == "anon-vote:indexer:v1:" + slot.genesisHash + ":" + slot.proposalId + ":" + numeral
  {
    DecimalIff(slot.startBlock, numeral);
  }

  /** Exactly what a read gives: the snapshot of a payload of version 1 that names the slot, unless its cursor is
      before the proposal. */
  lemma ReadableIff(items: map<string, Item>, slot: CacheSlot, snapshot: Snapshot)
    ensures Readable(items, slot) == Some(snapshot) <==>
            && StorageKey(slot) in items && items[StorageKey(slot)] == Stored(Payload(1, slot, snapshot))
            && snapshot.scannedThrough >= slot.startBlock - 1
  {}

  /** Keys name slots, as long as genesis hashes have no colon in them. */
  lemma StorageKeyInjective(a: CacheSlot, b: CacheSlot)
    requires !HasColon(a.genesisHash) && !HasColon(b.genesisHash) && StorageKey(a) == StorageKey(b)
    ensures a == b
  {
    var prefix := "anon-vote:indexer:v1:";
    var x, y := a.genesisHash + ":" + a.proposalId, b.genesisHash + ":" + b.proposalId;
    assert StorageKey(a)[|prefix|..] == x + ":" + Decimal(a.startBlock);
    assert StorageKey(b)[|prefix|..] == y + ":" + Decimal(b.startBlock);
    LastColonSplit(x, Decimal(a.startBlock), y, Decimal(b.startBlock));
    DecimalInjective(a.startBlock, b.startBlock);
    FirstColon(a.genesisHash, a.proposalId);
    FirstColon(b.genesisHash, b.proposalId);
    assert x[|a.genesisHash| + 1..] == a.proposalId && y[|b.genesisHash| + 1..] == b.proposalId;
  }

  /** And otherwise they may clash. */
  lemma StorageKeysClash()
    ensures StorageKey(CacheSlot("a:b", "c", 0)) == StorageKey(CacheSlot("a", "b:c", 0))
  {}

  datatype Write = Write(slot: CacheSlot, snapshot: Snapshot)

  function Store(ws: seq<Write>): map<string, Item> {
    if ws == [] then map[]
    else Written(Store(ws[..|ws| - 1]), ws[|ws| - 1].slot, ws[|ws| - 1].snapshot)
  }

  /** The last write under the key of `slot`. */
  function LastWrite(ws: seq<Write>, key: string): Option<Write> {
    if ws == [] then None
    else if StorageKey(ws[|ws| - 1].slot) == key then Some(ws[|ws| - 1])
    else LastWrite(ws[..|ws| - 1], key)
  }

  /** After any writes by any slots, whatever their keys, a read gives the slot's own last snapshot or
      nothing, never one of another slot. */
  lemma {:induction false} ReadsOwnSnapshot(ws: seq<Write>, slot: CacheSlot)
    ensures Readable(Store(ws), slot) ==
            match LastWrite(ws, StorageKey(slot))
            case None => None
            case Some(w) =>
              if w.slot == slot && w.snapshot.scannedThrough >= slot.startBlock - 1 then Some(w.snapshot) else None
    ensures Readable(Store(ws), slot).Some? ==> Write(slot, Readable(Store(ws), slot).value) in ws
  {
    if ws != [] {
      var rest, w := ws[..|ws| - 1], ws[|ws| - 1];
      ReadsOwnSnapshot(rest, slot);
      assert ws == rest + [w];
    }
  }
}
