/** The decision the loop takes on one decoded frame: skip it when the reader
    reports no card, otherwise split it and match the first segment exactly
    against the two known card types. */
module CardDecoder {
  import opened RadixText
  import opened FrameParser

  /** The `Card` record built for an identified Mifare card. */
  datatype Card = Card(rfid: string, id: u32)

  /** What one frame decodes to. `HexError` is the failed `from_str_radix`
      of a Mifare payload; `Malformed` is a Mifare tag with no second
      segment, an index the source takes without a bounds check. */
  datatype Outcome =
    | NoCard
    | Identified(card: Card)
    | HexError(kind: IntErrorKind)
    | Malformed
    | Marked
    | Unrecognized

  const MifareTag: string := "Mifare"
  const EmMarineTag: string := "Em-Marine"

  /** The type tag (`card_info[0]`): the first segment of the split frame,
      a delimiter-free prefix of the text. */
  function Tag(text: string): (tag: string)
    ensures tag <= text && NoDelimiter(tag)
  {
    FirstSegment(text);
    Split(text)[0]
  }

  /** Decodes one frame. Every frame without the sentinel falls into exactly
      one branch, chosen by exact, case-sensitive comparison of the tag. */
  function Decode(text: string): (outcome: Outcome)
    ensures outcome.NoCard? <==> Contains(text, NoCardSentinel)
    ensures !outcome.NoCard? ==>
              && (Tag(text) == MifareTag <==> outcome.Identified? || outcome.HexError? || outcome.Malformed?)
              && (Tag(text) == EmMarineTag <==> outcome.Marked?)
              && (Tag(text) != MifareTag && Tag(text) != EmMarineTag <==> outcome.Unrecognized?)
    ensures outcome.Identified? ==>
              outcome.card.rfid == MifareTag && |Split(text)| >= 2
              && IsNumeral(Split(text)[1], 16)
              && outcome.card.id == Value(Digits(Split(text)[1]), 16)
    ensures outcome.HexError? ==>
              |Split(text)| >= 2 && !(IsNumeral(Split(text)[1], 16) && Value(Digits(Split(text)[1]), 16) < U32Limit)
              && FromStrRadix(Split(text)[1], 16).Err?
              && outcome == HexError(FromStrRadix(Split(text)[1], 16).error)
    ensures outcome.Malformed? <==>
              !Contains(text, NoCardSentinel) && Tag(text) == MifareTag && |Split(text)| < 2
  {
    if Contains(text, NoCardSentinel) then NoCard
    else
      var segments := Split(text);
      if segments[0] == MifareTag then
        if |segments| < 2 then Malformed
        else
          FromStrRadixSpec(segments[1], 16);
          match FromStrRadix(segments[1], 16)
          case Ok(id) => Identified(Card(segments[0], id))
          case Err(kind) => HexError(kind)
      else if segments[0] == EmMarineTag then Marked
      else Unrecognized
  }

  /** A Mifare tag is followed by a payload segment whenever the frame text is
      longer than the tag, so the unchecked index cannot fail on such text. */
  lemma MifareHasPayload(text: string)
    requires Tag(text) == MifareTag && |text| > |MifareTag|
    ensures |Split(text)| >= 2
    ensures !Decode(text).Malformed?
  {
    SecondSegmentExists(text);
  }

  /** A text without the letter 'N' does not contain the sentinel. */
  lemma NoSentinelWithoutN(text: string)
    requires forall i :: 0 <= i < |text| ==> text[i] != 'N'
    ensures !Contains(text, NoCardSentinel)
  {
    forall i | 0 <= i <= |text| - |NoCardSentinel|
      ensures !(NoCardSentinel <= text[i..])
    {
      assert text[i..][0] != NoCardSentinel[0];
    }
  }

  /** A Mifare frame `Mifare[<payload>]<rest>` decodes to the payload's base-16
      value when it is a numeral below 2^32, and to an error otherwise. */
  lemma DecodeMifareFrame(payload: string, rest: string)
    requires NoDelimiter(payload)
    requires !Contains(MifareTag + "[" + payload + "]" + rest, NoCardSentinel)
    ensures var outcome := Decode(MifareTag + "[" + payload + "]" + rest);
            && (outcome.Identified? <==> IsNumeral(payload, 16) && Value(Digits(payload), 16) < U32Limit)
            && (outcome.Identified? ==> outcome.card == Card(MifareTag, Value(Digits(payload), 16)))
            && (outcome.HexError? <==> !outcome.Identified?)
            && (payload == [] ==> outcome == HexError(Empty))
  {
    var text := MifareTag + "[" + payload + "]" + rest;
    assert NoDelimiter(MifareTag);
    assert text == MifareTag + ['['] + (payload + [']'] + rest);
    SplitAfterHead(MifareTag, '[', payload + [']'] + rest);
    SplitAfterHead(payload, ']', rest);
    assert Split(text)[1] == payload;
    FromStrRadixSpec(payload, 16);
  }

  /** An Em-Marine frame decodes to `Marked` whatever follows the tag: the
      payload is never parsed. */
  lemma DecodeEmMarineFrame(payload: string)
    requires !Contains(EmMarineTag + "[" + payload, NoCardSentinel)
    ensures Decode(EmMarineTag + "[" + payload) == Marked
  {
    assert NoDelimiter(EmMarineTag);
    SplitAfterHead(EmMarineTag, '[', payload);
  }

  /** A frame that starts with a delimiter has an empty tag, which is
      unrecognized. */
  lemma DecodeEmptyTag(rest: string)
    requires !Contains("[" + rest, NoCardSentinel)
    ensures Decode("[" + rest) == Unrecognized
  {
    assert NoDelimiter([]);
    assert "[" + rest == [] + ['['] + rest;
    SplitAfterHead([], '[', rest);
  }

  /** A frame without any delimiter is one tag, the whole text, trailing
      bytes included; unless it is exactly a known tag it is unrecognized,
      and a bare "Mifare" decodes to `Malformed`. */
  lemma DecodeUnbracketed(text: string)
    requires NoDelimiter(text) && !Contains(text, NoCardSentinel)
    ensures text == MifareTag ==> Decode(text) == Malformed
    ensures text == EmMarineTag ==> Decode(text) == Marked
    ensures text != MifareTag && text != EmMarineTag ==> Decode(text) == Unrecognized
  {
    SplitWithoutDelimiter(text);
  }

  /** Tag matching is exact and case-sensitive: a lower-case "mifare" tag is
      unrecognized, and its payload is never decoded. */
  lemma TagIsCaseSensitive()
    ensures Decode("mifare[1A2B]") == Unrecognized
  {
    var text := "mifare[1A2B]";
    NoSentinelWithoutN(text);
    assert NoDelimiter("mifare");
    assert text == "mifare" + ['['] + "1A2B]";
    SplitAfterHead("mifare", '[', "1A2B]");
    assert Tag(text) == "mifare";
  }

  /** The worked example: the frame "Mifare[1A2B]" identifies card 6699.
      The frame is a parameter fixed by the precondition rather than a literal
      in the ensures, which keeps the verifier from unfolding the recursive
      functions on the literal itself. */
  lemma MifareExample(text: string)
    requires text == "Mifare[1A2B]"
    ensures Decode(text) == Identified(Card(MifareTag, 6699))
  {
    NoSentinelWithoutN(text);
    var segments := Split(text);
    ExampleSegments(text);
    ExamplePayload(segments);
  }

  lemma ExampleSegments(text: string)
    requires text == "Mifare[1A2B]"
    ensures Split(text) == [MifareTag, "1A2B", ""]
  {
    assert NoDelimiter(MifareTag) && NoDelimiter("1A2B");
    assert text == MifareTag + ['['] + ("1A2B" + [']'] + "");
    SplitAfterHead(MifareTag, '[', "1A2B" + [']'] + "");
    SplitAfterHead("1A2B", ']', "");
  }

  lemma ExamplePayload(segments: seq<string>)
    requires segments == [MifareTag, "1A2B", ""]
    ensures FromStrRadix(segments[1], 16) == Ok(6699)
  {
    assert segments[1] == "1A2B";
    HexExample();
  }
}
