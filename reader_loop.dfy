/** The read loop: a reused 30-byte buffer that each successful read
    overwrites from the front, the whole buffer decoded as text, and the
    effects of the decoded frame appended to a log of host effects. */
module ReaderLoop {
  import opened RadixText
  import opened FrameParser
  import opened CardDecoder
  import opened Dispatcher

  /** The length of the buffer the loop allocates once and reads into. */
  const BufferSize: nat := 30

  /** A `u8` of the buffer. */
  newtype byte = x: int | 0 <= x < 0x100

  /** What one `read` on the serial port returns: the bytes it wrote (at most
      the buffer's length), a timeout, or any other I/O error. */
  datatype ReadResult = Received(bytes: seq<byte>) | TimedOut | Failed(message: string)

  predicate FitsBuffer(read: ReadResult, size: nat)
  {
    read.Received? ==> |read.bytes| <= size
  }

  predicate AllFit(results: seq<ReadResult>, size: nat)
  {
    forall k :: 0 <= k < |results| ==> FitsBuffer(results[k], size)
  }

  /** The character an ASCII byte stands for; any other byte is replaced. */
  function ByteChar(b: byte): char
  {
    if b < 0x80 then b as int as char else '�'
  }

  /** `String::from_utf8_lossy` on the buffer, one character per byte. */
  function DecodeLossy(buf: seq<byte>): (text: string)
    ensures |text| == |buf|
  {
    seq(|buf|, i requires 0 <= i < |buf| => ByteChar(buf[i]))
  }

  /** The buffer after a read that wrote `bytes`: those bytes at the front,
      the previous contents behind them. */
  function Fill(buf: seq<byte>, bytes: seq<byte>): (next: seq<byte>)
    requires |bytes| <= |buf|
    ensures |next| == |buf|
    ensures next[..|bytes|] == bytes && next[|bytes|..] == buf[|bytes|..]
  {
    bytes + buf[|bytes|..]
  }

  /** The buffer after one read: only a successful read writes to it. */
  function NextBuffer(buf: seq<byte>, read: ReadResult): (next: seq<byte>)
    requires FitsBuffer(read, |buf|)
    ensures |next| == |buf|
    ensures !read.Received? ==> next == buf
    ensures read.Received? ==> next[..|read.bytes|] == read.bytes && next[|read.bytes|..] == buf[|read.bytes|..]
  {
    if read.Received? then Fill(buf, read.bytes) else buf
  }

  /** The effects of one loop iteration: after a successful read the whole
      buffer is decoded and dispatched; a timeout or an error does nothing. */
  function StepEffects(buf: seq<byte>, read: ReadResult): (effects: seq<Effect>)
    requires FitsBuffer(read, |buf|)
    ensures !read.Received? ==> effects == []
    ensures effects != [] ==> effects[0].SetClipboard?
    ensures |effects| <= 5
  {
    match read
    case Received(bytes) => Dispatch(Decode(DecodeLossy(Fill(buf, bytes))))
    case _ => []
  }

  /** The buffer after a sequence of reads, in order. */
  function RunBuffer(buf: seq<byte>, results: seq<ReadResult>): (last: seq<byte>)
    requires AllFit(results, |buf|)
    ensures |last| == |buf|
  {
    if results == [] then buf
    else
      var before := RunBuffer(buf, results[..|results| - 1]);
      NextBuffer(before, results[|results| - 1])
  }

  /** The effects of a sequence of reads: each iteration's effects, in order. */
  function RunEffects(buf: seq<byte>, results: seq<ReadResult>): (effects: seq<Effect>)
    requires AllFit(results, |buf|)
    ensures |effects| <= 5 * |results|
  {
    if results == [] then []
    else
      var init := results[..|results| - 1];
      RunEffects(buf, init) + StepEffects(RunBuffer(buf, init), results[|results| - 1])
  }

  /** Extending a run by one read applies that read to the buffer the run
      had reached and appends that read's effects. */
  lemma RunSnoc(buf: seq<byte>, results: seq<ReadResult>, i: nat)
    requires i < |results| && AllFit(results, |buf|)
    ensures RunBuffer(buf, results[..i + 1]) == NextBuffer(RunBuffer(buf, results[..i]), results[i])
    ensures RunEffects(buf, results[..i + 1])
         == RunEffects(buf, results[..i]) + StepEffects(RunBuffer(buf, results[..i]), results[i])
  {
    assert results[..i + 1][..i] == results[..i];
  }

  lemma AppendAssociates<T>(a: seq<T>, b: seq<T>, c: seq<T>)
    ensures (a + b) + c == a + (b + c)
  {
  }

  /** On text decoded from the full buffer the Mifare branch always finds its
      payload segment: a 30-character text whose first segment is "Mifare"
      has a delimiter at index 6. */
  lemma BufferFrameNeverMalformed(buf: seq<byte>)
    requires |buf| == BufferSize
    ensures !Decode(DecodeLossy(buf)).Malformed?
  {
    var text := DecodeLossy(buf);
    if Tag(text) == MifareTag {
      MifareHasPayload(text);
    }
  }

  /** A frame containing "No card" produces no clipboard write, no keystroke
      and no toast. */
  lemma NoCardIsSilent(buf: seq<byte>, bytes: seq<byte>)
    requires |bytes| <= |buf|
    requires Contains(DecodeLossy(Fill(buf, bytes)), NoCardSentinel)
    ensures StepEffects(buf, Received(bytes)) == []
  {
  }

  /** A read that writes nothing decodes and dispatches the previous buffer
      again: stale bytes are never cleared. */
  lemma EmptyReadRepeatsFrame(buf: seq<byte>)
    ensures StepEffects(buf, Received([])) == Dispatch(Decode(DecodeLossy(buf)))
  {
    assert Fill(buf, []) == buf;
  }

  /** A run of timeouts and read errors leaves the buffer as it was and
      performs nothing. */
  lemma {:induction false} FailedReadsAreSilent(buf: seq<byte>, results: seq<ReadResult>)
    requires forall k :: 0 <= k < |results| ==> !results[k].Received?
    ensures RunBuffer(buf, results) == buf && RunEffects(buf, results) == []
  {
    if results != [] {
      FailedReadsAreSilent(buf, results[..|results| - 1]);
    }
  }

  /** The bytes of an ASCII string. */
  function Ascii(s: string): (bytes: seq<byte>)
    requires forall i :: 0 <= i < |s| ==> s[i] as int < 0x80
    ensures |bytes| == |s|
  {
    seq(|s|, i requires 0 <= i < |s| => (s[i] as int) as byte)
  }

  /** Decoding the bytes of an ASCII string gives the string back. */
  lemma AsciiRoundTrip(s: string)
    requires forall i :: 0 <= i < |s| ==> s[i] as int < 0x80
    ensures DecodeLossy(Ascii(s)) == s
  {
    var text := DecodeLossy(Ascii(s));
    assert forall i :: 0 <= i < |s| ==> text[i] == s[i];
  }

  // The scenarios below take the frame as a parameter fixed by the
  // precondition rather than as a literal in the ensures, which keeps the
  // verifier from unfolding the recursive functions on the literal itself.

  /** The first read into the zeroed buffer delivers "Mifare[1A2B]": the
      clipboard receives "6699", then Ctrl-V and Enter are typed. */
  lemma MifareScenario(buf: seq<byte>, frame: string)
    requires buf == seq(BufferSize, _ => 0) && frame == "Mifare[1A2B]"
    ensures StepEffects(buf, Received(Ascii(frame))) == [SetClipboard("6699")] + PasteAndEnter
  {
    var bytes := Ascii(frame);
    var zeros := seq(BufferSize - |frame|, _ => '\0');
    var text := DecodeLossy(Fill(buf, bytes));
    assert text == frame + zeros by {
      AsciiRoundTrip(frame);
      assert DecodeLossy(buf[|frame|..]) == zeros;
    }
    assert forall i :: 0 <= i < |text| ==> text[i] != 'N';
    NoSentinelWithoutN(text);
    assert NoDelimiter("1A2B");
    assert text == MifareTag + "[" + "1A2B" + "]" + zeros;
    DecodeMifareFrame("1A2B", zeros);
    HexExample();
    FromStrRadixSpec("1A2B", 16);
    DecimalExample();
  }

  /** Bytes 0 decode to NUL characters, which are neither delimiters nor 'N'. */
  lemma ZerosDecode(buf: seq<byte>)
    requires forall i :: 0 <= i < |buf| ==> buf[i] == 0
    ensures DecodeLossy(buf) == seq(|buf|, _ => '\0')
  {
  }

  /** A reader that sends a bare "Mifare" with no brackets: the tag is then
      "Mifare" followed by 24 NUL characters from the zeroed buffer, which is
      not "Mifare", so the clipboard gets "--------" and a toast is shown. */
  lemma BareTagScenario(buf: seq<byte>, frame: string)
    requires buf == seq(BufferSize, _ => 0) && frame == "Mifare"
    ensures StepEffects(buf, Received(Ascii(frame)))
         == [SetClipboard(UnrecognizedClipboard), ShowToast(UnrecognizedTitle, Some(UnrecognizedText))]
  {
    var bytes := Ascii(frame);
    var zeros := seq(BufferSize - |frame|, _ => '\0');
    var text := DecodeLossy(Fill(buf, bytes));
    assert text == frame + zeros by {
      AsciiRoundTrip(frame);
      ZerosDecode(buf[|frame|..]);
    }
    assert forall i :: 0 <= i < |text| ==> text[i] != 'N' && !IsDelimiter(text[i]);
    NoSentinelWithoutN(text);
    assert text != MifareTag && text != EmMarineTag;
    DecodeUnbracketed(text);
  }

  /** A frame reporting "No card detected" performs nothing, whatever stale
      bytes follow it. */
  lemma NoCardScenario(buf: seq<byte>, frame: string)
    requires |buf| == BufferSize && frame == "No card detected"
    ensures StepEffects(buf, Received(Ascii(frame))) == []
  {
    var text := DecodeLossy(Fill(buf, Ascii(frame)));
    assert text[..|frame|] == frame by {
      AsciiRoundTrip(frame);
      assert DecodeLossy(Fill(buf, Ascii(frame))[..|frame|]) == text[..|frame|];
    }
    assert NoCardSentinel <= text[0..];
  }

  /** The reader's state: the reused buffer and the effects performed so far. */
  class Reader {
    const buffer: array<byte>
    var effects: seq<Effect>

    ghost predicate Valid()
      reads this
    {
      buffer.Length == BufferSize
    }

    /** `vec![0; 30]`: a zeroed buffer, nothing performed yet. */
    constructor ()
      ensures Valid() && fresh(buffer)
      ensures buffer[..] == seq(BufferSize, _ => 0) && effects == []
    {
      buffer := new byte[BufferSize](_ => 0);
      effects := [];
    }

    /** Stands for one call into the clipboard, keyboard or notification
        backend, which `Step` makes in order: the effect is appended to the
        log and nothing else changes. */
    method Perform(e: Effect)
      requires Valid()
      modifies this
      ensures Valid() && unchanged(buffer)
      ensures effects == old(effects) + [e]
    {
      effects := effects + [e];
    }

    /** One iteration of the loop: read into the buffer, then decode the
        whole buffer and handle the frame. */
    method Step(read: ReadResult)
      requires Valid() && FitsBuffer(read, BufferSize)
      modifies this, buffer
      ensures Valid()
      ensures buffer[..] == NextBuffer(old(buffer[..]), read)
      ensures effects == old(effects) + StepEffects(old(buffer[..]), read)
    {
      match read {
        case Received(bytes) =>
          forall i | 0 <= i < |bytes| {
            buffer[i] := bytes[i];
          }
          assert buffer[..] == Fill(old(buffer[..]), bytes);
          Handle(DecodeLossy(buffer[..]));
        case TimedOut =>
        case Failed(_) =>
      }
    }

    /** The body of the loop after a successful read: skip a frame that
        reports no card, otherwise split it, match the tag and perform the
        effects of that branch, in order. */
    method Handle(cardInfo: string)
      requires Valid() && |cardInfo| == BufferSize
      modifies this
      ensures Valid() && unchanged(buffer)
      ensures effects == old(effects) + Dispatch(Decode(cardInfo))
    {
      if !Contains(cardInfo, NoCardSentinel) {
        var segments := Split(cardInfo);
        if segments[0] == MifareTag {
          assert |segments| >= 2 by { MifareHasPayload(cardInfo); }
          match FromStrRadix(segments[1], 16) {
            case Ok(id) =>
              var card := Card(segments[0], id);
              Perform(SetClipboard(ToDecimal(card.id)));
              Perform(KeyDown(Control));
              Perform(KeyClick(Raw(86)));
              Perform(KeyUp(Control));
              Perform(KeyClick(Raw(13)));
            case Err(_) =>
          }
        } else if segments[0] == EmMarineTag {
          Perform(SetClipboard(EmMarineClipboard));
          Perform(ShowToast(EmMarineTitle, None));
        } else {
          Perform(SetClipboard(UnrecognizedClipboard));
          Perform(ShowToast(UnrecognizedTitle, Some(UnrecognizedText)));
        }
      }
    }

    /** The loop over a finite sequence of results: every read is handled, in
        order, and no error ends the loop. */
    method Run(results: seq<ReadResult>)
      requires Valid() && AllFit(results, BufferSize)
      modifies this, buffer
      ensures Valid()
      ensures buffer[..] == RunBuffer(old(buffer[..]), results)
      ensures effects == old(effects) + RunEffects(old(buffer[..]), results)
    {
      ghost var initial, log := buffer[..], effects;
      var i := 0;
      while i < |results|
        invariant 0 <= i <= |results| && Valid()
        invariant buffer[..] == RunBuffer(initial, results[..i])
        invariant effects == log + RunEffects(initial, results[..i])
      {
        RunSnoc(initial, results, i);
        ghost var before, done := buffer[..], effects;
        Step(results[i]);
        AppendAssociates(log, RunEffects(initial, results[..i]), StepEffects(before, results[i]));
        i := i + 1;
      }
      assert results[..i] == results;
    }
  }
}
