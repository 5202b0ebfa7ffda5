/** The faucet's drips (packages/api/src/faucet/faucet.service.ts): checks and a reservation in one go, then
    a transfer that succeeds or fails while other requests come and go. */
module Faucet {
  import opened Text
  import opened Wire
  import opened Log
  import opened Ring
  import opened Tally
  import RingIndexer
  import Sets

  datatype DripRequest = DripRequest(proposalId: string, gasAddress: string, ringBlock: nat, ringSig: RingSig)

  datatype Config = Config(
    proposalId: string,
    startBlock: nat,
    fund: nat,
    allowedVoters: nat,
    isAddress: string -> bool,
    verify: (RingSig, seq<string>, string) -> VerifyOutcome)

  /** What the indexer answers while the request is checked. */
  datatype IndexView = IndexView(scannedThrough: int, ring: Option<seq<string>>)

  /** What an index that holds `remarks` answers about block `b` (`getScannedThrough` and `getRingAt`). */
  ghost function ViewOf(scannedThrough: int, remarks: seq<Remark>, p: Proposal, b: nat): IndexView {
    IndexView(scannedThrough, if b > scannedThrough then None else Some(CanonicalRing(Seen(remarks), p, b)))
  }

  datatype DripError =
    | ProposalMismatch
    | InvalidGasAddress
    | RingBlockBeforeStart
    | NotCaughtUp
    | RingUnavailable
    | RingTooSmall
    | SignatureInvalid
    | AlreadyDripped
    | BudgetExhausted

  datatype Reservation = Reservation(keyImage: string, gasAddress: string)

  datatype Admission = Admitted(reservation: Reservation) | Refused(error: DripError)

  /** Everything but the key image and the budget: a signature that does not parse counts as invalid. */
  predicate Acceptable(c: Config, view: IndexView, req: DripRequest) {
    && req.proposalId == c.proposalId && c.isAddress(req.gasAddress)
    && c.startBlock <= req.ringBlock <= view.scannedThrough
    && view.ring.Some? && |view.ring.value| >= 2
    && c.verify(req.ringSig, view.ring.value, DripMessageHex(req.proposalId, req.gasAddress, req.ringBlock)) == Valid
  }

  /** The checks up to the signature, in order: what a request that fails them is told. */
  ghost predicate RefusedEarly(c: Config, view: IndexView, req: DripRequest, e: DripError) {
    match e
    case ProposalMismatch => req.proposalId != c.proposalId
    case InvalidGasAddress => req.proposalId == c.proposalId && !c.isAddress(req.gasAddress)
    case RingBlockBeforeStart => Addressed(c, req) && req.ringBlock < c.startBlock
    case NotCaughtUp => Addressed(c, req) && c.startBlock <= req.ringBlock && view.scannedThrough < req.ringBlock
    case RingUnavailable => InRange(c, view, req) && view.ring.None?
    case RingTooSmall => InRange(c, view, req) && view.ring.Some? && |view.ring.value| < 2
    case SignatureInvalid =>
      && InRange(c, view, req) && view.ring.Some? && |view.ring.value| >= 2
      && c.verify(req.ringSig, view.ring.value, DripMessageHex(req.proposalId, req.gasAddress, req.ringBlock)) != Valid
    case _ => false
  }

  predicate Addressed(c: Config, req: DripRequest) { req.proposalId == c.proposalId && c.isAddress(req.gasAddress) }

  predicate InRange(c: Config, view: IndexView, req: DripRequest) {
    Addressed(c, req) && c.startBlock <= req.ringBlock <= view.scannedThrough
  }

  class Service {
    const config: Config
    var usedKeyImages: set<string>
    var spentRao: nat

    constructor (config: Config)
      ensures this.config == config && usedKeyImages == {} && spentRao == 0
    {
      this.config, this.usedKeyImages, this.spentRao := config, {}, 0;
    }

    /** `processDrip` up to the transfer. */
    method Begin(req: DripRequest, view: IndexView) returns (r: Admission)
      modifies this
      ensures r.Admitted? <==>
              && Acceptable(config, view, req)
              && ToLower(req.ringSig.keyImage) !in old(usedKeyImages)
              && old(spentRao) + config.fund <= config.fund * config.allowedVoters
      ensures r.Admitted? ==>
              && r.reservation == Reservation(ToLower(req.ringSig.keyImage), req.gasAddress)
              && usedKeyImages == old(usedKeyImages) + {ToLower(req.ringSig.keyImage)}
              && spentRao == old(spentRao) + config.fund
      ensures r.Refused? ==> usedKeyImages == old(usedKeyImages) && spentRao == old(spentRao)
      ensures forall e: DripError :: !e.AlreadyDripped? && !e.BudgetExhausted? ==>
                (r == Refused(e) <==> RefusedEarly(config, view, req, e))
      ensures r == Refused(AlreadyDripped) <==>
              Acceptable(config, view, req) && ToLower(req.ringSig.keyImage) in old(usedKeyImages)
      ensures r == Refused(BudgetExhausted) <==>
              && Acceptable(config, view, req) && ToLower(req.ringSig.keyImage) !in old(usedKeyImages)
              && old(spentRao) + config.fund > config.fund * config.allowedVoters
    {
      if req.proposalId != config.proposalId { return Refused(ProposalMismatch); }
      if !config.isAddress(req.gasAddress) { return Refused(InvalidGasAddress); }
      if req.ringBlock < config.startBlock { return Refused(RingBlockBeforeStart); }
      if req.ringBlock > view.scannedThrough { return Refused(NotCaughtUp); }
      if view.ring.None? { return Refused(RingUnavailable); }
      if |view.ring.value| < 2 { return Refused(DripError.RingTooSmall); }
      var outcome := config.verify(req.ringSig, view.ring.value, DripMessageHex(req.proposalId, req.gasAddress, req.ringBlock));
      if outcome != Valid { return Refused(SignatureInvalid); }
      var keyImage := ToLower(req.ringSig.keyImage);
      if keyImage in usedKeyImages { return Refused(AlreadyDripped); }
      var maxBudget := config.fund * config.allowedVoters;
      if spentRao + config.fund > maxBudget { return Refused(BudgetExhausted); }
      spentRao := spentRao + config.fund;
      usedKeyImages := usedKeyImages + {keyImage};
      return Admitted(Reservation(keyImage, req.gasAddress));
    }

    /** The same, asking the indexer. An acceptable request is refused only as a duplicate or for the budget. */
    method ProcessDrip(index: RingIndexer.Indexer, req: DripRequest) returns (r: Admission)
      modifies this
      ensures Acceptable(config, ViewOf(index.scannedThrough, index.remarks, index.proposal, req.ringBlock), req) <==>
              r.Admitted? || r == Refused(AlreadyDripped) || r == Refused(BudgetExhausted)
      ensures r.Admitted? ==> r.reservation == Reservation(ToLower(req.ringSig.keyImage), req.gasAddress)
      ensures r.Admitted? ==>
              && ToLower(req.ringSig.keyImage) !in old(usedKeyImages)
              && usedKeyImages == old(usedKeyImages) + {ToLower(req.ringSig.keyImage)}
              && spentRao == old(spentRao) + config.fund <= config.fund * config.allowedVoters
      ensures forall e: DripError :: !e.AlreadyDripped? && !e.BudgetExhausted? ==>
                (r == Refused(e) <==>
                 RefusedEarly(config, ViewOf(index.scannedThrough, index.remarks, index.proposal, req.ringBlock), req, e))
      ensures r == Refused(AlreadyDripped) ==> ToLower(req.ringSig.keyImage) in old(usedKeyImages)
      ensures r == Refused(BudgetExhausted) ==>
              && ToLower(req.ringSig.keyImage) !in old(usedKeyImages)
              && old(spentRao) + config.fund > config.fund * config.allowedVoters
      ensures r.Refused? ==> usedKeyImages == old(usedKeyImages) && spentRao == old(spentRao)
    {
      var ring := index.GetRingAt(req.ringBlock);
      r := Begin(req, IndexView(index.scannedThrough, ring));
    }

    /** The transfer came back: keep the reservation, or roll it back. */
    method Settle(reservation: Reservation, transferred: bool)
      requires config.fund <= spentRao
      modifies this
      ensures transferred ==> usedKeyImages == old(usedKeyImages) && spentRao == old(spentRao)
      ensures !transferred ==>
              && usedKeyImages == old(usedKeyImages) - {reservation.keyImage}
              && spentRao == old(spentRao) - config.fund
    {
      if !transferred {
        spentRao := spentRao - config.fund;
        usedKeyImages := usedKeyImages - {reservation.keyImage};
      }
    }

    /** `remainingBudgetRao` of `getInfo`. */
    method RemainingBudget() returns (remaining: nat)
      ensures spentRao <= config.fund * config.allowedVoters ==> remaining + spentRao == config.fund * config.allowedVoters
      ensures spentRao > config.fund * config.allowedVoters ==> remaining == 0
    {
      var maxBudget := config.fund * config.allowedVoters;
      remaining := if maxBudget > spentRao then maxBudget - spentRao else 0;
    }
  }

  // ----- Reachable states -----

  function ImageHeld(r: Reservation): string { r.keyImage }

  /** The books over what is held, in flight or paid out: each key image once, each at the same amount. */
  ghost predicate Books(c: Config, used: set<string>, spent: nat, held: set<Reservation>) {
    && used == Sets.Image(held, ImageHeld) && |used| == |held|
    && spent == c.fund * |held|
    && spent <= c.fund * c.allowedVoters
  }

  ghost predicate BooksBalance(c: Config, used: set<string>, spent: nat, inFlight: set<Reservation>, paid: set<Reservation>) {
    inFlight !! paid && Books(c, used, spent, inFlight + paid)
  }

  /** Each key image has at most one drip, in flight or paid out. */
  lemma OneDripEach(c: Config, used: set<string>, spent: nat, held: set<Reservation>, a: Reservation, b: Reservation)
    requires Books(c, used, spent, held) && a in held && b in held && a.keyImage == b.keyImage
    ensures a == b
  {
    Sets.ImageSize(held, ImageHeld);
  }

  /** The bytes of a key image that request validation lets through, and two spellings of the same ones. */
  ghost predicate SameImage(a: DripRequest, b: DripRequest) {
    HexDecode(a.ringSig.keyImage).Some? && HexDecode(a.ringSig.keyImage) == HexDecode(b.ringSig.keyImage)
  }

  /** While the reservation of a request is held, no request whose key image has the same bytes, in whatever
      letter case, addressed to whatever gas wallet, finds it free; and only such a request does not. */
  lemma HeldForAllSpellings(c: Config, used: set<string>, spent: nat, held: set<Reservation>, r: Reservation,
                            a: DripRequest, b: DripRequest)
    requires Books(c, used, spent, held) && r in held && r.keyImage == ToLower(a.ringSig.keyImage)
    requires HexDecode(a.ringSig.keyImage).Some? && HexDecode(b.ringSig.keyImage).Some?
    ensures SameImage(a, b) <==> ToLower(b.ringSig.keyImage) == r.keyImage
    ensures SameImage(a, b) ==> ToLower(b.ringSig.keyImage) in used
  {
    SameBytesIff(a.ringSig.keyImage, b.ringSig.keyImage);
    assert ImageHeld(r) in Sets.Image(held, ImageHeld);
  }

  /** Two requests with the same key image, one after the other: never both are admitted. */
  method AskTwice(service: Service, a: DripRequest, viewA: IndexView, b: DripRequest, viewB: IndexView)
    returns (first: Admission, second: Admission)
    requires SameImage(a, b)
    modifies service
    ensures !(first.Admitted? && second.Admitted?)
    ensures first.Admitted? && Acceptable(service.config, viewB, b) ==> second == Refused(AlreadyDripped)
  {
    SameBytesIff(a.ringSig.keyImage, b.ringSig.keyImage);
    first := service.Begin(a, viewA);
    second := service.Begin(b, viewB);
  }

  lemma ImageGrows(held: set<Reservation>, r: Reservation)
    ensures Sets.Image(held + {r}, ImageHeld) == Sets.Image(held, ImageHeld) + {r.keyImage}
  {}

  lemma Reserve(c: Config, used: set<string>, spent: nat, held: set<Reservation>, r: Reservation)
    requires Books(c, used, spent, held) && r.keyImage !in used
    requires spent + c.fund <= c.fund * c.allowedVoters
    ensures r !in held
    ensures Books(c, used + {r.keyImage}, spent + c.fund, held + {r})
  {
    assert r in held ==> ImageHeld(r) in Sets.Image(held, ImageHeld);
    ImageGrows(held, r);
    Distribute(c.fund, |held|);
    assert |held + {r}| == |held| + 1 && |used + {r.keyImage}| == |used| + 1;
  }

  /** Rolling back a reservation releases its key image and its amount, and nobody else's. */
  lemma RollBack(c: Config, used: set<string>, spent: nat, held: set<Reservation>, r: Reservation)
    requires Books(c, used, spent, held) && r in held
    ensures c.fund <= spent
    ensures Books(c, used - {r.keyImage}, spent - c.fund, held - {r})
  {
    var rest := held - {r};
    forall x | x in rest ensures ImageHeld(x) != ImageHeld(r) {
      if ImageHeld(x) == ImageHeld(r) { OneDripEach(c, used, spent, held, x, r); }
    }
    assert Sets.Image(rest, ImageHeld) == used - {ImageHeld(r)};
    assert ImageHeld(r) in used;
    Distribute(c.fund, |rest|);
  }

  lemma Distribute(a: nat, n: nat)
    ensures a * (n + 1) == a * n + a
  {}

  /** With a positive amount, the budget refuses exactly when there are as many reservations as voters. */
  lemma BudgetIff(c: Config, used: set<string>, spent: nat, held: set<Reservation>)
    requires Books(c, used, spent, held) && c.fund > 0
    ensures spent + c.fund > c.fund * c.allowedVoters <==> |used| >= c.allowedVoters
    ensures |used| <= c.allowedVoters
  {
    Distribute(c.fund, |used|);
    MulOrder(c.fund, |used| + 1, c.allowedVoters);
    MulOrder(c.fund, |used|, c.allowedVoters);
  }

  lemma MulOrder(a: nat, m: nat, n: nat)
    requires a > 0
    ensures a * m <= a * n <==> m <= n
  {
    if m <= n {
      assert a * n == a * m + a * (n - m);
    } else {
      assert a * m == a * n + a * (m - n);
    }
  }

  lemma ReserveInFlight(c: Config, used: set<string>, spent: nat, inFlight: set<Reservation>, paid: set<Reservation>, r: Reservation)
    requires BooksBalance(c, used, spent, inFlight, paid) && r.keyImage !in used
    requires spent + c.fund <= c.fund * c.allowedVoters
    ensures BooksBalance(c, used + {r.keyImage}, spent + c.fund, inFlight + {r}, paid)
  {
    Reserve(c, used, spent, inFlight + paid, r);
    assert inFlight + paid + {r} == inFlight + {r} + paid;
  }

  lemma SettleInFlight(c: Config, used: set<string>, spent: nat, inFlight: set<Reservation>, paid: set<Reservation>, r: Reservation)
    requires BooksBalance(c, used, spent, inFlight, paid) && r in inFlight
    ensures c.fund <= spent
    ensures BooksBalance(c, used, spent, inFlight - {r}, paid + {r})
    ensures BooksBalance(c, used - {r.keyImage}, spent - c.fund, inFlight - {r}, paid)
  {
    RollBack(c, used, spent, inFlight + paid, r);
    assert inFlight + paid - {r} == inFlight - {r} + paid;
    assert inFlight + paid == inFlight - {r} + (paid + {r});
  }

  /** A request arrives and is checked. */
  method Arrive(service: Service, req: DripRequest, view: IndexView, inFlight: set<Reservation>, ghost paid: set<Reservation>)
    returns (now: set<Reservation>)
    requires BooksBalance(service.config, service.usedKeyImages, service.spentRao, inFlight, paid)
    modifies service
    ensures BooksBalance(service.config, service.usedKeyImages, service.spentRao, now, paid)
  {
    ghost var used, spent := service.usedKeyImages, service.spentRao;
    var admission := service.Begin(req, view);
    now := inFlight;
    if admission.Admitted? {
      ReserveInFlight(service.config, used, spent, inFlight, paid, admission.reservation);
      now := inFlight + {admission.reservation};
    }
  }

  /** A transfer comes back. */
  method Return(service: Service, r: Reservation, transferred: bool, inFlight: set<Reservation>, paid: set<Reservation>)
    returns (still: set<Reservation>, out: set<Reservation>)
    requires BooksBalance(service.config, service.usedKeyImages, service.spentRao, inFlight, paid) && r in inFlight
    modifies service
    ensures still == inFlight - {r} && out == if transferred then paid + {r} else paid
    ensures BooksBalance(service.config, service.usedKeyImages, service.spentRao, still, out)
  {
    SettleInFlight(service.config, service.usedKeyImages, service.spentRao, inFlight, paid, r);
    service.Settle(r, transferred);
    still, out := inFlight - {r}, if transferred then paid + {r} else paid;
  }

  /** Any interleaving of requests, however many wait for their transfer: the books balance in every
      reachable state, and what is left plus what is spent never changes. */
  method Serve(config: Config, steps: nat)
    returns (used: set<string>, spent: nat, remaining: nat, inFlight: set<Reservation>, paid: set<Reservation>)
    ensures BooksBalance(config, used, spent, inFlight, paid)
    ensures remaining + spent == config.fund * config.allowedVoters
  {
    var service := new Service(config);
    inFlight, paid := {}, {};
    for k := 0 to steps
      invariant fresh(service) && service.config == config
      invariant BooksBalance(config, service.usedKeyImages, service.spentRao, inFlight, paid)
    {
      var arrives: bool := *;
      if arrives || inFlight == {} {
        var req: DripRequest := *;
        var view: IndexView := *;
        inFlight := Arrive(service, req, view, inFlight, paid);
      } else {
        var r :| r in inFlight;
        var transferred: bool := *;
        inFlight, paid := Return(service, r, transferred, inFlight, paid);
      }
    }
    used, spent := service.usedKeyImages, service.spentRao;
    remaining := service.RemainingBudget();
  }
}
