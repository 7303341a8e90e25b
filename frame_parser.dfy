/** The text operations the loop applies to a decoded frame: the "No card"
    sentinel test (`str::contains`) and the split on '[' and ']'
    (`str::split` with a character predicate, collected into a vector). */
module FrameParser {

  /** The substring whose presence marks a frame without a card. */
  const NoCardSentinel: string := "No card"

  predicate IsDelimiter(c: char)
  {
    c == '[' || c == ']'
  }

  predicate NoDelimiter(s: string)
  {
    forall i :: 0 <= i < |s| ==> !IsDelimiter(s[i])
  }

  /** `str::contains`: `pattern` occurs in `text` at some position. */
  predicate Contains(text: string, pattern: string)
    ensures Contains(text, pattern) ==> |pattern| <= |text|
    ensures pattern <= text ==> Contains(text, pattern)
  {
    assert pattern <= text ==> pattern <= text[0..];
    exists i :: 0 <= i <= |text| - |pattern| && pattern <= text[i..]
  }

  /** The delimiters of `text`, in order. */
  function Delimiters(text: string): (ds: seq<char>)
    ensures forall k :: 0 <= k < |ds| ==> IsDelimiter(ds[k])
  {
    if text == [] then []
    else (if IsDelimiter(text[0]) then [text[0]] else []) + Delimiters(text[1..])
  }

  /** `text.split(|c| c == '[' || c == ']').collect()`: the maximal runs of
      non-delimiters between delimiters, empty runs included; one more
      segment than there are delimiters, and none holds a delimiter. */
  function Split(text: string): (segments: seq<string>)
    ensures |segments| == |Delimiters(text)| + 1
    ensures forall k :: 0 <= k < |segments| ==> NoDelimiter(segments[k])
  {
    if text == [] then [[]]
    else
      var rest := Split(text[1..]);
      if IsDelimiter(text[0]) then [[]] + rest
      else [[text[0]] + rest[0]] + rest[1..]
  }

  /** The inverse of splitting: segments joined by the given delimiters. */
  function Interleave(segments: seq<string>, delimiters: seq<char>): string
    requires |segments| == |delimiters| + 1
  {
    if delimiters == [] then segments[0]
    else segments[0] + [delimiters[0]] + Interleave(segments[1..], delimiters[1..])
  }

  /** Splitting loses nothing: putting the removed delimiters back between
      the segments gives the original text. */
  lemma {:induction false} SplitReconstructs(text: string)
    ensures Interleave(Split(text), Delimiters(text)) == text
  {
    if text != [] {
      var rest := Split(text[1..]);
      var ds := Delimiters(text[1..]);
      SplitReconstructs(text[1..]);
      if IsDelimiter(text[0]) {
        assert Split(text)[1..] == rest;
        assert Delimiters(text) == [text[0]] + ds;
      } else {
        assert Delimiters(text) == ds;
        if ds == [] {
        } else {
          assert Split(text)[1..] == rest[1..];
        }
      }
    }
  }

  /** The first segment is the longest delimiter-free prefix of the text: it
      is followed by a delimiter or by the end of the text. */
  lemma {:induction false} FirstSegment(text: string)
    ensures Split(text)[0] <= text
    ensures |Split(text)[0]| < |text| ==> IsDelimiter(text[|Split(text)[0]|])
  {
    if text != [] && !IsDelimiter(text[0]) {
      FirstSegment(text[1..]);
    }
  }

  /** A delimiter-free head followed by a delimiter is the first segment, and
      the segments of the remainder follow it. */
  lemma {:induction false} SplitAfterHead(head: string, d: char, rest: string)
    requires NoDelimiter(head) && IsDelimiter(d)
    ensures Split(head + [d] + rest) == [head] + Split(rest)
    decreases |head|
  {
    var text := head + [d] + rest;
    if head == [] {
      assert text[1..] == rest;
    } else {
      assert text[1..] == head[1..] + [d] + rest;
      SplitAfterHead(head[1..], d, rest);
      assert [text[0]] + head[1..] == head;
    }
  }

  /** The index the source takes without a check: when the first segment is
      shorter than the text, a second segment exists. */
  lemma SecondSegmentExists(text: string)
    requires |Split(text)[0]| < |text|
    ensures |Split(text)| >= 2
  {
    var head := Split(text)[0];
    FirstSegment(text);
    assert text == head + [text[|head|]] + text[|head| + 1..];
    SplitAfterHead(head, text[|head|], text[|head| + 1..]);
  }

  /** Text without a delimiter is a single segment: the whole text. */
  lemma {:induction false} SplitWithoutDelimiter(text: string)
    requires NoDelimiter(text)
    ensures Split(text) == [text]
  {
    if text != [] {
      SplitWithoutDelimiter(text[1..]);
      assert [text[0]] + text[1..] == text;
    }
  }
}
