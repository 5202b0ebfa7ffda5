/** Remark texts and signed messages (packages/shared/src/index.ts). */
module Wire {
  import opened Text

  datatype Choice = Yes | No | Abstain

  function ChoiceText(c: Choice): (s: string)
    ensures ':' !in s
  {
    match c case Yes => "yes" case No => "no" case Abstain => "abstain"
  }

  function ParseChoice(s: string): (r: Option<Choice>)
    ensures r.Some? ==> ChoiceText(r.value) == s
    ensures r == None ==> forall c :: ChoiceText(c) != s
  {
    if s == "yes" then Some(Yes)
    else if s == "no" then Some(No)
    else if s == "abstain" then Some(Abstain)
    else None
  }

  lemma ChoiceTextInjective(c: Choice, d: Choice)
    requires ChoiceText(c) == ChoiceText(d)
    ensures c == d
  {
    assert |ChoiceText(c)| == |ChoiceText(d)|;
  }

  const ANNOUNCE_PREFIX := "anon-vote-v2:announce:"
  const START_PREFIX := "anon-vote-v2:start:"
  const CLEAR_VOTE_PREFIX := "anon-vote-v2:clear-vote:"

  datatype Encoded = Encoded(text: string) | ColonInProposalId | KeyNotHex | UnknownChoice

  datatype Announce = Announce(proposalId: string, vkPub: string)
  datatype ClearVote = ClearVote(proposalId: string, choice: Choice)

  // ----- Announce, start and clear-vote remarks -----

  function EncodeAnnounce(proposalId: string, vkPub: string): Encoded {
    if HasColon(proposalId) then ColonInProposalId
    else if !IsHex32(vkPub) then KeyNotHex
    else Encoded(ANNOUNCE_PREFIX + proposalId + ":" + ToLower(vkPub))
  }

  function ParseAnnounce(text: string): Option<Announce> {
    if !(ANNOUNCE_PREFIX <= text) then None
    else
      var rest := text[|ANNOUNCE_PREFIX|..];
      var k := IndexOfColon(rest);
      if k == 0 || k == |rest| then None
      else
        var vkPub := ToLower(rest[k + 1..]);
        if IsHex32(vkPub) then Some(Announce(rest[..k], vkPub)) else None
  }

  function EncodeStart(proposalId: string): Encoded {
    if HasColon(proposalId) then ColonInProposalId else Encoded(START_PREFIX + proposalId)
  }

  function ParseStart(text: string): Option<string> {
    if !(START_PREFIX <= text) then None
    else
      var proposalId := text[|START_PREFIX|..];
      if |proposalId| == 0 || HasColon(proposalId) then None else Some(proposalId)
  }

  function EncodeClearVote(proposalId: string, choice: string): Encoded {
    if HasColon(proposalId) then ColonInProposalId
    else if ParseChoice(choice).None? then UnknownChoice
    else Encoded(CLEAR_VOTE_PREFIX + proposalId + ":" + choice)
  }

  function ParseClearVote(text: string): Option<ClearVote> {
    if !(CLEAR_VOTE_PREFIX <= text) then None
    else
      var rest := text[|CLEAR_VOTE_PREFIX|..];
      var k := IndexOfColon(rest);
      if k == 0 || k == |rest| then None
      else
        match ParseChoice(rest[k + 1..])
        case None => None
        case Some(c) => Some(ClearVote(rest[..k], c))
  }

  /** A text `prefix id : tail` comes apart at the first colon after the prefix. */
  lemma SplitAfterPrefix(prefix: string, id: string, tail: string)
    requires ':' !in id
    ensures var text := prefix + id + ":" + tail;
            && prefix <= text
            && var rest := text[|prefix|..];
            && IndexOfColon(rest) == |id| < |rest|
            && rest[..|id|] == id && rest[|id| + 1..] == tail
  {
    var text := prefix + id + ":" + tail;
    assert text == prefix + (id + ":" + tail);
    assert text[|prefix|..] == id + ":" + tail;
    FirstColon(id, tail);
  }

  /** A text with a prefix is put together again from its pieces. */
  lemma JoinAfterPrefix(prefix: string, text: string)
    requires prefix <= text && IndexOfColon(text[|prefix|..]) < |text[|prefix|..]|
    ensures var rest := text[|prefix|..];
            var k := IndexOfColon(rest);
            text == prefix + rest[..k] + ":" + rest[k + 1..] && ':' !in rest[..k]
  {
    var rest := text[|prefix|..];
    var k := IndexOfColon(rest);
    assert text == prefix + rest;
    assert rest == rest[..k] + ":" + rest[k + 1..];
    assert prefix + (rest[..k] + ":" + rest[k + 1..]) == prefix + rest[..k] + ":" + rest[k + 1..];
  }

  /** The word for each choice. */
  ghost predicate IsWord(c: Choice, word: string) {
    match c case Yes => word == "yes" case No => word == "no" case Abstain => word == "abstain"
  }

  /** Exactly which texts announce a key. */
  lemma AnnounceTexts(text: string, a: Announce)
    ensures ParseAnnounce(text) == Some(a) <==>
            exists key :: && text == "anon-vote-v2:announce:" + a.proposalId + ":" + key
                          && a.proposalId != "" && !HasColon(a.proposalId)
                          && IsHex32(key) && a.vkPub == ToLower(key)
  {
    if ParseAnnounce(text) == Some(a) {
      JoinAfterPrefix(ANNOUNCE_PREFIX, text);
      var rest := text[|ANNOUNCE_PREFIX|..];
      var key := rest[IndexOfColon(rest) + 1..];
      assert text == ANNOUNCE_PREFIX + a.proposalId + ":" + key && IsHex32(key);
    }
    forall key | text == ANNOUNCE_PREFIX + a.proposalId + ":" + key && a.proposalId != "" &&
                 !HasColon(a.proposalId) && IsHex32(key) && a.vkPub == ToLower(key)
      ensures ParseAnnounce(text) == Some(a)
    {
      SplitAfterPrefix(ANNOUNCE_PREFIX, a.proposalId, key);
    }
  }

  /** Exactly which texts open a proposal. */
  lemma StartTexts(text: string, id: string)
    ensures ParseStart(text) == Some(id) <==> text == "anon-vote-v2:start:" + id && id != "" && !HasColon(id)
  {
    if ParseStart(text) == Some(id) {
      assert text == START_PREFIX + id;
    }
    if text == START_PREFIX + id {
      assert text[|START_PREFIX|..] == id;
    }
  }

  /** Exactly which texts are clear votes. */
  lemma ClearVoteTexts(text: string, v: ClearVote)
    ensures ParseClearVote(text) == Some(v) <==>
            exists word :: && text == "anon-vote-v2:clear-vote:" + v.proposalId + ":" + word && IsWord(v.choice, word)
                           && v.proposalId != "" && !HasColon(v.proposalId)
  {
    if ParseClearVote(text) == Some(v) {
      JoinAfterPrefix(CLEAR_VOTE_PREFIX, text);
      assert text == CLEAR_VOTE_PREFIX + v.proposalId + ":" + ChoiceText(v.choice) && IsWord(v.choice, ChoiceText(v.choice));
    }
    forall word | text == CLEAR_VOTE_PREFIX + v.proposalId + ":" + word && IsWord(v.choice, word) &&
                  v.proposalId != "" && !HasColon(v.proposalId)
      ensures ParseClearVote(text) == Some(v)
    {
      SplitAfterPrefix(CLEAR_VOTE_PREFIX, v.proposalId, word);
      ChoiceTextInjective(ParseChoice(word).value, v.choice);
    }
  }

  /** Parsing undoes encoding, up to letter case, exactly when the id is not empty; what does not encode says why. */
  lemma AnnounceRoundTrip(proposalId: string, vkPub: string)
    ensures EncodeAnnounce(proposalId, vkPub).Encoded? <==> !HasColon(proposalId) && IsHex32(vkPub)
    ensures EncodeAnnounce(proposalId, vkPub) == ColonInProposalId <==> HasColon(proposalId)
    ensures EncodeAnnounce(proposalId, vkPub) == KeyNotHex <==> !HasColon(proposalId) && !IsHex32(vkPub)
    ensures EncodeAnnounce(proposalId, vkPub).Encoded? ==>
              && EncodeAnnounce(proposalId, vkPub).text == "anon-vote-v2:announce:" + proposalId + ":" + ToLower(vkPub)
              && ParseAnnounce(EncodeAnnounce(proposalId, vkPub).text) ==
                 if proposalId == "" then None else Some(Announce(proposalId, ToLower(vkPub)))
  {
    if !HasColon(proposalId) {
      SplitAfterPrefix(ANNOUNCE_PREFIX, proposalId, ToLower(vkPub));
    }
  }

  lemma StartRoundTrip(proposalId: string)
    ensures EncodeStart(proposalId).Encoded? <==> !HasColon(proposalId)
    ensures EncodeStart(proposalId) == ColonInProposalId <==> HasColon(proposalId)
    ensures EncodeStart(proposalId).Encoded? ==>
              && EncodeStart(proposalId).text == "anon-vote-v2:start:" + proposalId
              && ParseStart(EncodeStart(proposalId).text) == if proposalId == "" then None else Some(proposalId)
  {
    StartTexts(START_PREFIX + proposalId, proposalId);
    assert (START_PREFIX + proposalId)[|START_PREFIX|..] == proposalId;
  }

  lemma ClearVoteRoundTrip(proposalId: string, choice: string)
    ensures EncodeClearVote(proposalId, choice).Encoded? <==>
            !HasColon(proposalId) && choice in {"yes", "no", "abstain"}
    ensures EncodeClearVote(proposalId, choice) == ColonInProposalId <==> HasColon(proposalId)
    ensures EncodeClearVote(proposalId, choice) == UnknownChoice <==>
            !HasColon(proposalId) && choice !in {"yes", "no", "abstain"}
    ensures EncodeClearVote(proposalId, choice).Encoded? ==>
              && EncodeClearVote(proposalId, choice).text == "anon-vote-v2:clear-vote:" + proposalId + ":" + choice
              && ParseClearVote(EncodeClearVote(proposalId, choice).text) ==
                 if proposalId == "" then None else Some(ClearVote(proposalId, ParseChoice(choice).value))
  {
    ChoiceWords(choice);
    if !HasColon(proposalId) {
      SplitAfterPrefix(CLEAR_VOTE_PREFIX, proposalId, choice);
    }
  }

  lemma ChoiceWords(s: string)
    ensures ParseChoice(s).Some? <==> s in {"yes", "no", "abstain"}
    ensures forall c :: ParseChoice(s) == Some(c) <==> IsWord(c, s)
  {}

  // ----- Vote remarks, from the level of JSON values -----

  datatype Json =
    | JNull
    | JBool(flag: bool)
    | JNum(number: real)
    | JStr(text: string)
    | JArr(items: seq<Json>)
    | JObj(fields: map<string, Json>)

  /** The platform's `JSON.parse` and `JSON.stringify`. */
  datatype JsonCodec = JsonCodec(parse: string -> Option<Json>, stringify: Json -> string)

  datatype RingSig = RingSig(challenge: string, responses: seq<string>, keyImage: string)
  datatype Vote = Vote(proposalId: string, choice: Choice, ringBlock: nat, sig: RingSig)

  predicate IsHex32Json(j: Json) { j.JStr? && IsHex32(j.text) }

  function LowerAll(xs: seq<Json>): (ls: seq<string>)
    requires forall i :: 0 <= i < |xs| ==> xs[i].JStr? && IsHex32(xs[i].text)
    ensures |ls| == |xs|
    ensures forall i :: 0 <= i < |ls| ==> ls[i] == ToLower(xs[i].text) && IsLowerHex32(ls[i])
  {
    seq(|xs|, i requires 0 <= i < |xs| => ToLower(xs[i].text))
  }

  /** The member `key` of an object; a missing one fails every later test, as `undefined` does. */
  function Field(m: map<string, Json>, key: string): Json {
    if key in m then m[key] else JNull
  }

  function ParseSig(j: Json): (r: Option<RingSig>)
    ensures r.Some? ==> IsLowerHex32(r.value.keyImage)
  {
    if !j.JObj? then None
    else
      var challenge := Field(j.fields, "challenge");
      var keyImage := Field(j.fields, "key_image");
      var responses := Field(j.fields, "responses");
      if !IsHex32Json(challenge) || !IsHex32Json(keyImage) || !responses.JArr? then None
      else if exists i :: 0 <= i < |responses.items| && !IsHex32Json(responses.items[i]) then None
      else Some(RingSig(ToLower(challenge.text), LowerAll(responses.items), ToLower(keyImage.text)))
  }

  function ParseVote(parse: string -> Option<Json>, text: string): (r: Option<Vote>)
    ensures r.Some? ==> text != "" && text[0] == '{' && IsLowerHex32(r.value.sig.keyImage)
  {
    if text == "" || text[0] != '{' then None
    else
      match parse(text)
      case None => None
      case Some(json) =>
        if !json.JObj? || Field(json.fields, "v") != JNum(2.0) then None
        else
          var p, c := Field(json.fields, "p"), Field(json.fields, "c");
          var rb := Field(json.fields, "rb");
          if !p.JStr? || !c.JStr? || ParseChoice(c.text).None? then None
          else if !rb.JNum? || rb.number.Floor as real != rb.number || rb.number < 0.0 then None
          else
            match ParseSig(Field(json.fields, "sig"))
            case None => None
            case Some(sig) => Some(Vote(p.text, ParseChoice(c.text).value, rb.number.Floor, sig))
  }

  function SigJson(sig: RingSig): Json {
    JObj(map[
           "challenge" := JStr(sig.challenge),
           "responses" := JArr(seq(|sig.responses|, i requires 0 <= i < |sig.responses| => JStr(sig.responses[i]))),
           "key_image" := JStr(sig.keyImage)])
  }

  function VoteJson(v: Vote): Json {
    JObj(map[
           "v" := JNum(2.0),
           "p" := JStr(v.proposalId),
           "c" := JStr(ChoiceText(v.choice)),
           "rb" := JNum(v.ringBlock as real),
           "sig" := SigJson(v.sig)])
  }

  function EncodeVote(j: JsonCodec, v: Vote): string { j.stringify(VoteJson(v)) }

  predicate WellFormedSig(sig: RingSig) {
    && IsLowerHex32(sig.challenge) && IsLowerHex32(sig.keyImage)
    && forall i :: 0 <= i < |sig.responses| ==> IsLowerHex32(sig.responses[i])
  }

  /** `Number.MAX_SAFE_INTEGER`: integers up to here print and read back exactly. */
  const MAX_SAFE_INTEGER: nat := 0x1F_FFFF_FFFF_FFFF

  /** What a voter sends: a signature in lower-case hexadecimal, a safe ring block. */
  predicate Sendable(v: Vote) { WellFormedSig(v.sig) && v.ringBlock <= MAX_SAFE_INTEGER }

  /** What the vote remark needs of the platform: votes print with a leading brace and read back. */
  ghost predicate Faithful(j: JsonCodec) {
    forall v: Vote {:trigger j.stringify(VoteJson(v))} :: Sendable(v) ==>
      && j.stringify(VoteJson(v)) != "" && j.stringify(VoteJson(v))[0] == '{'
      && j.parse(j.stringify(VoteJson(v))) == Some(VoteJson(v))
  }

  lemma SigJsonRoundTrip(sig: RingSig)
    requires WellFormedSig(sig)
    ensures ParseSig(SigJson(sig)) == Some(sig)
  {
    var items := SigJson(sig).fields["responses"].items;
    assert forall i :: 0 <= i < |items| ==> items[i] == JStr(sig.responses[i]);
    assert LowerAll(items) == sig.responses;
  }

  /** A vote read back is the vote written. */
  lemma VoteRoundTrip(j: JsonCodec, v: Vote)
    requires Faithful(j) && Sendable(v)
    ensures ParseVote(j.parse, EncodeVote(j, v)) == Some(v)
  {
    var m := VoteJson(v).fields;
    assert j.parse(EncodeVote(j, v)) == Some(JObj(m));
    assert (v.ringBlock as real).Floor == v.ringBlock;
    SigJsonRoundTrip(v.sig);
    var c := ParseChoice(ChoiceText(v.choice));
    ChoiceTextInjective(c.value, v.choice);
  }

  /** The text of a JSON string whose lower case is `t`, which is 32 bytes in hexadecimal. */
  predicate Spells(j: Json, t: string) { IsHex32Json(j) && ToLower(j.text) == t }

  /** The signature that a JSON value gives. */
  ghost predicate SigIs(j: Json, sig: RingSig) {
    && j.JObj?
    && Spells(Field(j.fields, "challenge"), sig.challenge)
    && Spells(Field(j.fields, "key_image"), sig.keyImage)
    && Field(j.fields, "responses").JArr?
    && |Field(j.fields, "responses").items| == |sig.responses|
    && forall i :: 0 <= i < |sig.responses| ==> Spells(Field(j.fields, "responses").items[i], sig.responses[i])
  }

  lemma ParseSigIff(j: Json, sig: RingSig)
    ensures ParseSig(j) == Some(sig) <==> SigIs(j, sig)
  {
    if SigIs(j, sig) {
      var items := Field(j.fields, "responses").items;
      assert forall i :: 0 <= i < |items| ==> Spells(items[i], sig.responses[i]);
      assert LowerAll(items) == sig.responses;
    }
  }

  /** Exactly which texts are which votes, from the JSON values they hold. Extra fields do not matter. */
  lemma VoteTexts(parse: string -> Option<Json>, text: string, v: Vote)
    ensures ParseVote(parse, text) == Some(v) <==>
            && text != "" && text[0] == '{'
            && exists m: map<string, Json> ::
                 && parse(text) == Some(JObj(m))
                 && Field(m, "v") == JNum(2.0)
                 && Field(m, "p") == JStr(v.proposalId)
                 && Field(m, "c").JStr? && IsWord(v.choice, Field(m, "c").text)
                 && Field(m, "rb") == JNum(v.ringBlock as real)
                 && SigIs(Field(m, "sig"), v.sig)
  {
    if text != "" && text[0] == '{' && parse(text).Some? && parse(text).value.JObj? {
      var m := parse(text).value.fields;
      ParseSigIff(Field(m, "sig"), v.sig);
      if Field(m, "c").JStr? { ChoiceWords(Field(m, "c").text); }
      assert (v.ringBlock as real).Floor == v.ringBlock;
    }
  }

  /** No text is two kinds of remark at once. */
  lemma KindsDisjoint(parse: string -> Option<Json>, text: string)
    ensures ParseVote(parse, text).Some? ==>
              ParseAnnounce(text).None? && ParseStart(text).None? && ParseClearVote(text).None?
    ensures ParseAnnounce(text).Some? ==> ParseStart(text).None? && ParseClearVote(text).None?
    ensures ParseStart(text).Some? ==> ParseClearVote(text).None?
  {
    var n := |"anon-vote-v2:"|;
    if ANNOUNCE_PREFIX <= text { assert text[n] == 'a'; }
    if START_PREFIX <= text { assert text[n] == 's'; }
    if CLEAR_VOTE_PREFIX <= text { assert text[n] == 'c'; }
  }

  // ----- Signed messages -----

  function VoteText(proposalId: string, choice: Choice, ringBlock: nat): string {
    "vote:" + proposalId + ":" + ChoiceText(choice) + ":" + Decimal(ringBlock)
  }

  function DripText(proposalId: string, gasAddress: string, ringBlock: nat): string {
    "drip:" + proposalId + ":" + gasAddress + ":" + Decimal(ringBlock)
  }

  /** The bytes a ring signature covers, as the hexadecimal text handed to the signer. */
  function MessageHex(text: string): string { HexEncode(Utf8(text)) }

  function VoteMessageHex(proposalId: string, choice: Choice, ringBlock: nat): string {
    MessageHex(VoteText(proposalId, choice, ringBlock))
  }

  function DripMessageHex(proposalId: string, gasAddress: string, ringBlock: nat): string {
    MessageHex(DripText(proposalId, gasAddress, ringBlock))
  }

  /** The signed texts, spelled out. */
  lemma VoteTextIs(text: string, proposalId: string, choice: Choice, ringBlock: nat)
    ensures text == VoteText(proposalId, choice, ringBlock) <==>
            exists word, numeral ::
              && text == "vote:" + proposalId + ":" + word + ":" + numeral
              && IsWord(choice, word) && IsNumeral(numeral) && NumeralValue(numeral) == ringBlock
  {
    DecimalIff(ringBlock, Decimal(ringBlock));
    assert IsWord(choice, ChoiceText(choice));
    forall word, numeral | IsWord(choice, word) && IsNumeral(numeral) && NumeralValue(numeral) == ringBlock
      ensures word == ChoiceText(choice) && numeral == Decimal(ringBlock)
    {
      DecimalIff(ringBlock, numeral);
    }
  }

  lemma DripTextIs(text: string, proposalId: string, gasAddress: string, ringBlock: nat)
    ensures text == DripText(proposalId, gasAddress, ringBlock) <==>
            exists numeral ::
              && text == "drip:" + proposalId + ":" + gasAddress + ":" + numeral
              && IsNumeral(numeral) && NumeralValue(numeral) == ringBlock
  {
    DecimalIff(ringBlock, Decimal(ringBlock));
    forall numeral | IsNumeral(numeral) && NumeralValue(numeral) == ringBlock ensures numeral == Decimal(ringBlock) {
      DecimalIff(ringBlock, numeral);
    }
  }

  /** What a vote signs: the UTF-8 bytes of its text, in lower-case hexadecimal. */
  lemma VoteBytes(proposalId: string, choice: Choice, ringBlock: nat, word: string, numeral: string)
    requires IsWord(choice, word) && IsNumeral(numeral) && NumeralValue(numeral) == ringBlock
    ensures VoteMessageHex(proposalId, choice, ringBlock) ==
            HexEncode(Utf8("vote:" + proposalId + ":" + word + ":" + numeral))
  {
    VoteTextIs("vote:" + proposalId + ":" + word + ":" + numeral, proposalId, choice, ringBlock);
  }

  lemma DripBytes(proposalId: string, gasAddress: string, ringBlock: nat, numeral: string)
    requires IsNumeral(numeral) && NumeralValue(numeral) == ringBlock
    ensures DripMessageHex(proposalId, gasAddress, ringBlock) ==
            HexEncode(Utf8("drip:" + proposalId + ":" + gasAddress + ":" + numeral))
  {
    DripTextIs("drip:" + proposalId + ":" + gasAddress + ":" + numeral, proposalId, gasAddress, ringBlock);
  }

  lemma {:induction false} HexEncodeAppend(a: seq<Byte>, b: seq<Byte>)
    ensures HexEncode(a + b) == HexEncode(a) + HexEncode(b)
  {
    if a == [] {
      assert a + b == b;
    } else {
      HexEncodeAppend(a[1..], b);
      assert (a + b)[1..] == a[1..] + b;
    }
  }

  /** The byte loop that renders a string's UTF-8 as hexadecimal. */
  method Utf8ToHex(s: string) returns (out: string)
    ensures out == MessageHex(s)
    ensures HexDecode(out) == Some(Utf8(s))
  {
    var bytes := Utf8(s);
    out := "";
    for i := 0 to |bytes|
      invariant out == HexEncode(bytes[..i])
    {
      HexEncodeAppend(bytes[..i], [bytes[i]]);
      assert bytes[..i + 1] == bytes[..i] + [bytes[i]];
      out := out + [HexDigit(bytes[i] / 16), HexDigit(bytes[i] % 16)];
    }
    assert bytes[..|bytes|] == bytes;
    HexRoundTrip(bytes);
  }

  lemma MessageHexInjective(s: string, t: string)
    requires MessageHex(s) == MessageHex(t)
    ensures s == t
  {
    HexRoundTrip(Utf8(s));
    HexRoundTrip(Utf8(t));
    Utf8Injective(s, t);
  }

  lemma TaggedSplit(tag: string, a: string, b: string, m: nat, c: string, d: string, n: nat)
    requires ':' !in b && ':' !in d
    requires tag + a + ":" + b + ":" + Decimal(m) == tag + c + ":" + d + ":" + Decimal(n)
    ensures a == c && b == d && m == n
  {
    LastColonSplit(tag + a + ":" + b, Decimal(m), tag + c + ":" + d, Decimal(n));
    DecimalInjective(m, n);
    LastColonSplit(tag + a, b, tag + c, d);
    assert (tag + a)[|tag|..] == a && (tag + c)[|tag|..] == c;
  }

  /** A signed vote message determines proposal, choice and ring block. */
  lemma VoteMessageInjective(p: string, c: Choice, m: nat, q: string, d: Choice, n: nat)
    requires VoteMessageHex(p, c, m) == VoteMessageHex(q, d, n)
    ensures p == q && c == d && m == n
  {
    MessageHexInjective(VoteText(p, c, m), VoteText(q, d, n));
    TaggedSplit("vote:", p, ChoiceText(c), m, q, ChoiceText(d), n);
    ChoiceTextInjective(c, d);
  }

  /** So does a drip message, for gas addresses without a colon. */
  lemma DripMessageInjective(p: string, g: string, m: nat, q: string, h: string, n: nat)
    requires ':' !in g && ':' !in h
    requires DripMessageHex(p, g, m) == DripMessageHex(q, h, n)
    ensures p == q && g == h && m == n
  {
    MessageHexInjective(DripText(p, g, m), DripText(q, h, n));
    TaggedSplit("drip:", p, g, m, q, h, n);
  }

  /** No signature over a vote is a signature over a drip, whatever the gas address. */
  lemma VoteIsNotDrip(p: string, c: Choice, m: nat, q: string, g: string, n: nat)
    ensures VoteMessageHex(p, c, m) != DripMessageHex(q, g, n)
  {
    assert VoteText(p, c, m)[0] == 'v' && DripText(q, g, n)[0] == 'd';
    if VoteMessageHex(p, c, m) == DripMessageHex(q, g, n) {
      MessageHexInjective(VoteText(p, c, m), DripText(q, g, n));
    }
  }
}
