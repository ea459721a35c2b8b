/**
 * The text prompts of src/index.ts and their validators. A `text` prompt
 * shows the validator's message and asks again until a reply passes, or
 * until the user cancels; the workflows then read the accepted reply with
 * `parseInt`.
 */
module Prompts {
  import opened Wrappers
  import opened JsParseInt
  import opened ImageRecord
  import opened Selection

  /** What a validator returns: nothing (accept), or the message to show. */
  datatype Verdict = Accept | Reject(message: string)

  /** `queryImages`: a query is required, and it must match some image. */
  function ValidateQuery(imgs: seq<Image>, isMatch: (string, string) -> bool, value: string): (v: Verdict)
    reads imgs
    ensures v == Accept <==> value != [] && Select(imgs, PathMatch(isMatch, value)) != []
  {
    if |value| == 0 then Reject("A query is required")
    else if Select(imgs, PathMatch(isMatch, value)) == [] then Reject("Your query didn't match any images. Try another?")
    else Accept
  }

  /**
   * `resizeByMaxWidth` as written: a value is required, it must be a
   * number, and some image must be wider than it. Nothing rejects a width
   * of zero or below.
   */
  function ValidateMaxWidthAsWritten(imgs: seq<Image>, value: string): (v: Verdict)
    requires Measured(imgs)
    reads imgs
    ensures v == Accept <==>
              value != [] && ParseInt(value).Num? && Select(imgs, WiderThan(ParseInt(value).value)) != []
  {
    if |value| == 0 then Reject("A value is required")
    else if ParseInt(value).NaN? then Reject("Value must be a number")
    else if Select(imgs, WiderThan(ParseInt(value).value)) == [] then
      Reject("Found no images bigger than " + value + "px. Try a different width?")
    else Accept
  }

  /**
   * The max-width validator with the `width <= 0` check `resizeByQuery`
   * has, placed before the search for wider images.
   */
  function ValidateMaxWidth(imgs: seq<Image>, value: string): (v: Verdict)
    requires Measured(imgs)
    reads imgs
    ensures v == Accept <==>
              && value != [] && ParseInt(value).Num? && ParseInt(value).value > 0
              && Select(imgs, WiderThan(ParseInt(value).value)) != []
  {
    if |value| == 0 then Reject("A value is required")
    else if ParseInt(value).NaN? then Reject("Value must be a number")
    else if ParseInt(value).value <= 0 then Reject("Width must be greater than 0")
    else if Select(imgs, WiderThan(ParseInt(value).value)) == [] then
      Reject("Found no images bigger than " + value + "px. Try a different width?")
    else Accept
  }

  /** `resizeByQuery`: a value is required, it must be a number, and above zero. */
  function ValidateWidth(value: string): (v: Verdict)
    ensures v == Accept <==> value != [] && ParseInt(value).Num? && ParseInt(value).value > 0
  {
    if |value| == 0 then Reject("A value is required")
    else if ParseInt(value).NaN? then Reject("Value must be a number")
    else if ParseInt(value).value <= 0 then Reject("Width must be greater than 0")
    else Accept
  }

  /** `optimise`: a value is required, it must be a number, from 1 to 100. */
  function ValidateQuality(value: string): (v: Verdict)
    ensures v == Accept <==> value != [] && ParseInt(value).Num? && 1 <= ParseInt(value).value <= 100
  {
    if |value| == 0 then Reject("A value is required")
    else if ParseInt(value).NaN? then Reject("Value must be a number")
    else if ParseInt(value).value <= 0 || ParseInt(value).value > 100 then
      Reject("Quality must be a number between 0 - 100")
    else Accept
  }

  /** The four text prompts. */
  datatype Prompt = QueryPrompt | MaxWidthPrompt | WidthPrompt | QualityPrompt

  /** The validator each prompt runs: an accepted value is never empty, and the numeric prompts accept only numbers. */
  function Validate(p: Prompt, imgs: seq<Image>, isMatch: (string, string) -> bool, value: string): (v: Verdict)
    requires p.MaxWidthPrompt? ==> Measured(imgs)
    reads imgs
    ensures v == Accept ==> value != []
    ensures v == Accept && !p.QueryPrompt? ==> ParseInt(value).Num?
  {
    match p
    case QueryPrompt => ValidateQuery(imgs, isMatch, value)
    case MaxWidthPrompt => ValidateMaxWidth(imgs, value)
    case WidthPrompt => ValidateWidth(value)
    case QualityPrompt => ValidateQuality(value)
  }

  /** A reply that ends the prompt: a cancel, or a value the validator accepts. */
  predicate Settles(p: Prompt, imgs: seq<Image>, isMatch: (string, string) -> bool, reply: Option<string>)
    requires p.MaxWidthPrompt? ==> Measured(imgs)
    reads imgs
  {
    reply.None? || Validate(p, imgs, isMatch, reply.value) == Accept
  }

  /**
   * Where a run of replies (None standing for a cancel) settles the
   * prompt: at the first reply that settles it, or past the end when
   * every reply is rejected.
   */
  function Settle(p: Prompt, imgs: seq<Image>, isMatch: (string, string) -> bool, replies: seq<Option<string>>): (k: nat)
    requires p.MaxWidthPrompt? ==> Measured(imgs)
    reads imgs
    ensures k <= |replies|
  {
    if replies == [] then 0
    else if Settles(p, imgs, isMatch, replies[0]) then 0
    else 1 + Settle(p, imgs, isMatch, replies[1..])
  }

  /**
   * The prompt settles on a reply that cancels or passes, every reply
   * before it was shown its validator's message, and it only runs past the
   * end when all replies were rejected.
   */
  lemma {:induction false} SettleSpec(p: Prompt, imgs: seq<Image>, isMatch: (string, string) -> bool, replies: seq<Option<string>>)
    requires p.MaxWidthPrompt? ==> Measured(imgs)
    ensures var k := Settle(p, imgs, isMatch, replies);
            && k <= |replies|
            && (forall j :: 0 <= j < k ==> !Settles(p, imgs, isMatch, replies[j]))
            && (k < |replies| ==> Settles(p, imgs, isMatch, replies[k]))
  {
    if replies != [] && !Settles(p, imgs, isMatch, replies[0]) {
      var rest := replies[1..];
      SettleSpec(p, imgs, isMatch, rest);
      var k := Settle(p, imgs, isMatch, rest);
      forall j | 0 <= j < k + 1 ensures !Settles(p, imgs, isMatch, replies[j]) {
        if j > 0 {
          assert replies[j] == rest[j - 1];
        }
      }
      if k < |rest| {
        assert replies[k + 1] == rest[k];
      }
    }
  }

  /** What a prompt settles on: no reply yet accepted, a cancel, or an accepted value. */
  datatype Answer = Unanswered | Cancel | Given(value: string)

  /** The answer `text` resolves with, given the user's replies in order. */
  function Ask(p: Prompt, imgs: seq<Image>, isMatch: (string, string) -> bool, replies: seq<Option<string>>): (r: Answer)
    requires p.MaxWidthPrompt? ==> Measured(imgs)
    reads imgs
    ensures r.Given? ==> Validate(p, imgs, isMatch, r.value) == Accept
  {
    var k := Settle(p, imgs, isMatch, replies);
    SettleSpec(p, imgs, isMatch, replies);
    if k == |replies| then Unanswered
    else if replies[k].None? then Cancel
    else Given(replies[k].value)
  }

  /**
   * A prompt stays open only while every reply is rejected, is cancelled
   * only by a cancel, and resolves with a reply the user gave, after
   * rejecting every reply before it.
   */
  lemma AskSpec(p: Prompt, imgs: seq<Image>, isMatch: (string, string) -> bool, replies: seq<Option<string>>)
    requires p.MaxWidthPrompt? ==> Measured(imgs)
    ensures var r := Ask(p, imgs, isMatch, replies);
            && (r.Unanswered? <==> forall j :: 0 <= j < |replies| ==> replies[j].Some? && Validate(p, imgs, isMatch, replies[j].value).Reject?)
            && (r.Cancel? ==> None in replies)
            && (r.Given? ==> exists k :: 0 <= k < |replies| && replies[k] == Some(r.value)
                                && forall j :: 0 <= j < k ==> replies[j].Some? && Validate(p, imgs, isMatch, replies[j].value).Reject?)
  {
    var k := Settle(p, imgs, isMatch, replies);
    SettleSpec(p, imgs, isMatch, replies);
    if k < |replies| && replies[k].Some? {
      assert replies[k].value == Ask(p, imgs, isMatch, replies).value;
    }
  }

  /** Typed back, a quality is accepted exactly when it lies in 1..100. */
  lemma QualityOfDecimal(q: int)
    ensures ValidateQuality(Decimal(q)) == Accept <==> 1 <= q <= 100
  {
    ParseDecimalRoundTrip(q);
  }

  /** Typed back, a width for `resizeByQuery` is accepted exactly when it is positive. */
  lemma WidthOfDecimal(w: int)
    ensures ValidateWidth(Decimal(w)) == Accept <==> w > 0
  {
    ParseDecimalRoundTrip(w);
  }

  /** Typed back, a max width is accepted exactly when it is positive and some image is wider. */
  lemma MaxWidthOfDecimal(imgs: seq<Image>, w: int)
    requires Measured(imgs)
    ensures ValidateMaxWidth(imgs, Decimal(w)) == Accept <==> w > 0 && Select(imgs, WiderThan(w)) != []
  {
    ParseDecimalRoundTrip(w);
  }

  /**
   * The validator as written accepts the width 0 as soon as one image has
   * a positive width, and selects that image for a resize sharp refuses.
   */
  lemma MaxWidthAcceptsZero(imgs: seq<Image>, i: Image)
    requires Measured(imgs) && i in imgs && i.stats.value.width > 0
    ensures ValidateMaxWidthAsWritten(imgs, "0") == Accept && ParseInt("0") == Num(0)
    ensures i in Select(imgs, WiderThan(0))
    ensures ValidateMaxWidth(imgs, "0").Reject?
  {
    ParseDecimalRoundTrip(0);
    assert Decimal(0) == "0";
    SelectSpec(imgs, WiderThan(0));
  }
}
