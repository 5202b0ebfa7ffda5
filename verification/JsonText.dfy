/** The JSON text of a vote remark (packages/shared/src/index.ts), as the platform prints it for proposal ids
    without control characters: what is asked of the platform can be met. */
module JsonText {
  import opened Text
  import opened Wire

  function EscapeChar(c: char): (s: string)
    ensures s != "" && (s[0] == '\\' <==> |s| == 2) && |s| <= 2
  {
    if c == '"' || c == '\\' then ['\\', c] else [c]
  }

  function Escape(s: string): string {
    if s == "" then "" else EscapeChar(s[0]) + Escape(s[1..])
  }

  lemma {:induction false} EscapeInjective(s: string, t: string)
    requires Escape(s) == Escape(t)
    ensures s == t
  {
    if s != "" && t != "" {
      var x, y := EscapeChar(s[0]), EscapeChar(t[0]);
      assert Escape(s)[0] == x[0] && Escape(t)[0] == y[0];
      assert |x| == |y|;
      assert Escape(s)[..|x|] == x && Escape(t)[..|y|] == y;
      assert Escape(s)[|x|..] == Escape(s[1..]) && Escape(t)[|y|..] == Escape(t[1..]);
      assert x[|x| - 1] == s[0] && y[|y| - 1] == t[0];
      EscapeInjective(s[1..], t[1..]);
      assert s == [s[0]] + s[1..] && t == [t[0]] + t[1..];
    }
  }

  /** The items of an array of strings that need no escapes. */
  function Items(xs: seq<string>): string {
    if xs == [] then ""
    else (if |xs| == 1 then "" else Items(xs[..|xs| - 1]) + ",") + "\"" + xs[|xs| - 1] + "\""
  }

  lemma {:induction false} ItemsShape(xs: seq<string>)
    requires forall i :: 0 <= i < |xs| ==> IsLowerHex32(xs[i])
    ensures |Items(xs)| == if xs == [] then 0 else 67 * |xs| - 1
    ensures '[' !in Items(xs)
  {
    if xs != [] {
      ItemsShape(xs[..|xs| - 1]);
      assert forall c :: c in xs[|xs| - 1] ==> IsLowerHexDigit(c);
    }
  }

  lemma SplitItem(a: string, x: string, b: string, y: string)
    requires |x| == |y| == 64 && a + "\"" + x + "\"" == b + "\"" + y + "\""
    ensures a == b && x == y
  {
    var s, t := a + "\"" + x + "\"", b + "\"" + y + "\"";
    assert |a| == |b|;
    assert s[..|a|] == a && t[..|b|] == b;
    assert s[|a| + 1..|a| + 65] == x && t[|b| + 1..|b| + 65] == y;
  }

  function Before(xs: seq<string>, n: nat): string
    requires n < |xs|
  {
    if n == 0 then "" else Items(xs[..n]) + ","
  }

  lemma SameBefore(xs: seq<string>, ys: seq<string>, n: nat)
    requires n < |xs| && n < |ys| && Before(xs, n) == Before(ys, n)
    ensures n > 0 ==> Items(xs[..n]) == Items(ys[..n])
  {
    if n > 0 {
      var a, b := Items(xs[..n]), Items(ys[..n]);
      assert (a + ",")[..|a|] == a && (b + ",")[..|b|] == b;
    }
  }

  lemma LastItems(xs: seq<string>, ys: seq<string>, n: nat)
    requires n + 1 == |xs| == |ys| && Items(xs) == Items(ys) && |xs[n]| == |ys[n]| == 64
    ensures xs[n] == ys[n] && (n > 0 ==> Items(xs[..n]) == Items(ys[..n]))
  {
    SplitItem(Before(xs, n), xs[n], Before(ys, n), ys[n]);
    SameBefore(xs, ys, n);
  }

  lemma {:induction false} ItemsInjective(xs: seq<string>, ys: seq<string>)
    requires forall i :: 0 <= i < |xs| ==> IsLowerHex32(xs[i])
    requires forall i :: 0 <= i < |ys| ==> IsLowerHex32(ys[i])
    requires Items(xs) == Items(ys)
    ensures xs == ys
  {
    ItemsShape(xs);
    ItemsShape(ys);
    assert |xs| == |ys|;
    if xs != [] {
      var n := |xs| - 1;
      LastItems(xs, ys, n);
      if n > 0 {
        ItemsInjective(xs[..n], ys[..n]);
      }
      assert xs == xs[..n] + [xs[n]] && ys == ys[..n] + [ys[n]];
    }
  }

  const TO_ID := "{\"v\":2,\"p\":\""
  const TO_CHOICE := "\",\"c\":\""
  const TO_RING_BLOCK := "\",\"rb\":"
  const TO_CHALLENGE := ",\"sig\":{\"challenge\":\""
  const TO_RESPONSES := "\",\"responses\":["
  const TO_KEY_IMAGE := "],\"key_image\":\""
  const CLOSE := "\"}}"

  function ThroughId(v: Vote): string { TO_ID + Escape(v.proposalId) }
  function ThroughChoice(v: Vote): string { ThroughId(v) + TO_CHOICE + ChoiceText(v.choice) }
  function ThroughRingBlock(v: Vote): string { ThroughChoice(v) + TO_RING_BLOCK + Decimal(v.ringBlock) }
  function ThroughChallenge(v: Vote): string { ThroughRingBlock(v) + TO_CHALLENGE + v.sig.challenge }
  function ThroughResponses(v: Vote): string { ThroughChallenge(v) + TO_RESPONSES + Items(v.sig.responses) }
  function ThroughKeyImage(v: Vote): string { ThroughResponses(v) + TO_KEY_IMAGE + v.sig.keyImage }
  function PrintVote(v: Vote): string { ThroughKeyImage(v) + CLOSE }

  lemma HexHasNoQuote(s: string)
    requires IsLowerHex32(s)
    ensures '"' !in s
  {}

  lemma PrefixFixesHead(v: Vote, w: Vote)
    requires ThroughRingBlock(v) == ThroughRingBlock(w)
    ensures v.proposalId == w.proposalId && v.choice == w.choice && v.ringBlock == w.ringBlock
  {
    SplitField(ThroughChoice(v), TO_RING_BLOCK, Decimal(v.ringBlock), ThroughChoice(w), Decimal(w.ringBlock));
    DecimalInjective(v.ringBlock, w.ringBlock);
    SplitField(ThroughId(v), TO_CHOICE, ChoiceText(v.choice), ThroughId(w), ChoiceText(w.choice));
    ChoiceTextInjective(v.choice, w.choice);
    assert ThroughId(v)[|TO_ID|..] == Escape(v.proposalId) && ThroughId(w)[|TO_ID|..] == Escape(w.proposalId);
    EscapeInjective(v.proposalId, w.proposalId);
  }

  /** The text of a vote determines the vote. */
  lemma PrintInjective(v: Vote, w: Vote)
    requires Sendable(v) && Sendable(w) && PrintVote(v) == PrintVote(w)
    ensures v == w
  {
    assert PrintVote(v)[..|PrintVote(v)| - |CLOSE|] == ThroughKeyImage(v);
    assert PrintVote(w)[..|PrintVote(w)| - |CLOSE|] == ThroughKeyImage(w);
    HexHasNoQuote(v.sig.keyImage);
    HexHasNoQuote(w.sig.keyImage);
    SplitField(ThroughResponses(v), TO_KEY_IMAGE, v.sig.keyImage, ThroughResponses(w), w.sig.keyImage);
    ItemsShape(v.sig.responses);
    ItemsShape(w.sig.responses);
    SplitField(ThroughChallenge(v), TO_RESPONSES, Items(v.sig.responses), ThroughChallenge(w), Items(w.sig.responses));
    ItemsInjective(v.sig.responses, w.sig.responses);
    HexHasNoQuote(v.sig.challenge);
    HexHasNoQuote(w.sig.challenge);
    SplitField(ThroughRingBlock(v), TO_CHALLENGE, v.sig.challenge, ThroughRingBlock(w), w.sig.challenge);
    PrefixFixesHead(v, w);
  }

  ghost predicate PrintsAs(v: Vote, text: string) { Sendable(v) && PrintVote(v) == text }
  ghost predicate HoldsVote(v: Vote, json: Json) { Sendable(v) && VoteJson(v) == json }

  ghost function Print(json: Json): (text: string)
    ensures (exists v :: HoldsVote(v, json)) ==> exists v :: HoldsVote(v, json) && PrintsAs(v, text)
  {
    if exists v :: HoldsVote(v, json) then
      var v :| HoldsVote(v, json);
      assert PrintsAs(v, PrintVote(v));
      PrintVote(v)
    else ""
  }

  ghost function Read(text: string): (json: Option<Json>)
    ensures (exists v :: PrintsAs(v, text)) ==> exists v :: PrintsAs(v, text) && json == Some(VoteJson(v))
  {
    if exists v :: PrintsAs(v, text) then
      var v :| PrintsAs(v, text);
      Some(VoteJson(v))
    else None
  }

  /** Printing votes as above, and reading what was so printed. */
  ghost function VoteCodec(): JsonCodec { JsonCodec(text => Read(text), json => Print(json)) }

  /** What is asked of the platform's JSON can be met. */
  lemma VoteCodecIsFaithful()
    ensures Faithful(VoteCodec())
  {
    forall v: Vote | Sendable(v)
      ensures Print(VoteJson(v)) != "" && Print(VoteJson(v))[0] == '{' && Read(Print(VoteJson(v))) == Some(VoteJson(v))
    {
      ReadsBack(v);
    }
  }

  lemma ReadsBack(v: Vote)
    requires Sendable(v)
    ensures Print(VoteJson(v)) != "" && Print(VoteJson(v))[0] == '{' && Read(Print(VoteJson(v))) == Some(VoteJson(v))
  {
    var text := Print(VoteJson(v));
    assert HoldsVote(v, VoteJson(v));
    var w :| HoldsVote(w, VoteJson(v)) && PrintsAs(w, text);
    var u :| PrintsAs(u, text) && Read(text) == Some(VoteJson(u));
    SameText(u, w, text);
  }

  lemma SameText(u: Vote, w: Vote, text: string)
    requires PrintsAs(u, text) && PrintsAs(w, text)
    ensures u == w && text != "" && text[0] == '{'
  {
    PrintInjective(u, w);
    PrintStart(w);
  }

  lemma PrintStart(v: Vote)
    ensures PrintVote(v) != "" && PrintVote(v)[0] == '{'
  {}
}
