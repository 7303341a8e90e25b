/** The host-side effects of one decoded frame, in the order the loop performs
    them: a clipboard write, then either the paste keystrokes or a toast. The
    clipboard, keyboard and notification backends are modelled only by the
    effects they are asked to perform. */
module Dispatcher {
  import opened RadixText
  import opened CardDecoder

  datatype Option<T> = None | Some(value: T)

  /** The keys the loop emulates: the Control modifier and raw virtual-key codes. */
  datatype Key = Control | Raw(code: int)

  datatype Effect =
    | SetClipboard(contents: string)
    | KeyDown(key: Key)
    | KeyClick(key: Key)
    | KeyUp(key: Key)
    | ShowToast(title: string, text: Option<string>)

  /** Ctrl held, V (virtual key 86) clicked, Ctrl released, Enter (13) clicked. */
  const PasteAndEnter: seq<Effect> := [KeyDown(Control), KeyClick(Raw(86)), KeyUp(Control), KeyClick(Raw(13))]

  const EmMarineClipboard: string := "-Em-Marine-"
  const UnrecognizedClipboard: string := "--------"
  const EmMarineTitle: string := "Em-Marine"
  /** "Card not recognised", and the table-flip line shown under it. */
  const UnrecognizedTitle: string := "Карта не распознана"
  const UnrecognizedText: string := "(╯°□°）╯︵ ┻━┻"

  predicate IsKeystroke(e: Effect)
  {
    e.KeyDown? || e.KeyClick? || e.KeyUp?
  }

  /** The number of toasts among `effects`. */
  function ToastCount(effects: seq<Effect>): nat
  {
    if effects == [] then 0
    else (if effects[0].ShowToast? then 1 else 0) + ToastCount(effects[1..])
  }

  /** The effects performed for one outcome, in order: nothing for a missing
      card, a bad payload or a malformed frame, and otherwise a clipboard
      write first, followed by at most four more effects. */
  function Dispatch(outcome: Outcome): (effects: seq<Effect>)
    ensures effects == [] <==> !(outcome.Identified? || outcome.Marked? || outcome.Unrecognized?)
    ensures effects != [] ==> effects[0].SetClipboard?
    ensures |effects| <= 5
  {
    match outcome
    case Identified(card) => [SetClipboard(ToDecimal(card.id))] + PasteAndEnter
    case Marked => [SetClipboard(EmMarineClipboard), ShowToast(EmMarineTitle, None)]
    case Unrecognized => [SetClipboard(UnrecognizedClipboard), ShowToast(UnrecognizedTitle, Some(UnrecognizedText))]
    case _ => []
  }

  /** The clipboard's content after `effects`, starting from `initial`: each
      write replaces the whole content, nothing else touches it. */
  function ClipboardAfter(initial: string, effects: seq<Effect>): (contents: string)
    ensures contents == initial || exists k :: 0 <= k < |effects| && effects[k] == SetClipboard(contents)
    decreases |effects|
  {
    if effects == [] then initial
    else ClipboardAfter(if effects[0].SetClipboard? then effects[0].contents else initial, effects[1..])
  }

  /** Every outcome that does something writes the clipboard first; an
      identified card is then pasted with Enter and never toasted, the two
      other card kinds are toasted exactly once and never typed; a missing
      card, a bad payload and a malformed frame do nothing at all. */
  lemma DispatchShape(outcome: Outcome)
    ensures var effects := Dispatch(outcome);
            && (effects == [] <==> !(outcome.Identified? || outcome.Marked? || outcome.Unrecognized?))
            && (effects != [] ==> effects[0].SetClipboard?)
            && (outcome.Identified? ==> effects[1..] == PasteAndEnter && ToastCount(effects) == 0)
            && (outcome.Marked? || outcome.Unrecognized? ==>
                  ToastCount(effects) == 1 && forall k :: 0 <= k < |effects| ==> !IsKeystroke(effects[k]))
  {
    var effects := Dispatch(outcome);
    if outcome.Identified? {
      assert effects[1..][1..][1..][1..][1..] == [];
    } else if outcome.Marked? || outcome.Unrecognized? {
      assert effects[1..][1..] == [];
      assert ToastCount(effects[1..]) == 1;
    }
  }

  /** The clipboard text of an identified card parses back, in decimal, to
      the card's identifier. */
  lemma ClipboardHoldsIdentifier(card: Card)
    ensures Dispatch(Identified(card))[0] == SetClipboard(ToDecimal(card.id))
    ensures FromStrRadix(Dispatch(Identified(card))[0].contents, 10) == Ok(card.id)
  {
    DecimalRoundTrip(card.id);
  }

  /** After effects whose only clipboard write is their first effect, the
      clipboard holds that write, whatever came before. */
  lemma {:induction false} ClipboardAfterAppend(initial: string, history: seq<Effect>, effects: seq<Effect>)
    requires effects != [] && effects[0].SetClipboard?
    requires forall k :: 1 <= k < |effects| ==> !effects[k].SetClipboard?
    ensures ClipboardAfter(initial, history + effects) == effects[0].contents
    decreases |history|
  {
    if history == [] {
      assert history + effects == effects;
      ClipboardAfterSkips(effects[0].contents, effects[1..]);
    } else {
      assert (history + effects)[1..] == history[1..] + effects;
      ClipboardAfterAppend(if history[0].SetClipboard? then history[0].contents else initial, history[1..], effects);
    }
  }

  lemma {:induction false} ClipboardAfterSkips(initial: string, effects: seq<Effect>)
    requires forall k :: 0 <= k < |effects| ==> !effects[k].SetClipboard?
    ensures ClipboardAfter(initial, effects) == initial
    decreases |effects|
  {
    if effects != [] {
      ClipboardAfterSkips(initial, effects[1..]);
    }
  }

  /** Dispatching overwrites the clipboard: whatever happened before, the
      clipboard afterwards holds the outcome's text, so dispatching the same
      outcome twice leaves the same content. */
  lemma DispatchOverwritesClipboard(initial: string, history: seq<Effect>, outcome: Outcome)
    requires outcome.Identified? || outcome.Marked? || outcome.Unrecognized?
    ensures ClipboardAfter(initial, history + Dispatch(outcome)) == Dispatch(outcome)[0].contents
    ensures ClipboardAfter(initial, history + Dispatch(outcome) + Dispatch(outcome))
         == ClipboardAfter(initial, history + Dispatch(outcome))
  {
    var effects := Dispatch(outcome);
    ClipboardAfterAppend(initial, history, effects);
    ClipboardAfterAppend(initial, history + effects, effects);
  }
}
