/** The chunked-message protocol of the companion (ssis/common/messages.js): a message whose
    `data` list is too large for one channel message is cut into numbered parts.
    The serialised byte size of a message and the channel's size limit are parameters
    (`size`, `max`); the real size is measured by the host. */
module Messages {
  import opened Optional

  /** One message on the channel between the device and the companion: a JSON object
      whose fields may each be absent. */
  datatype Envelope<T> = Envelope(
    request: Option<string>,
    status: Option<string>,
    responseType: Option<string>,
    message: Option<string>,
    data: Option<seq<T>>,
    part: Option<nat>,
    totalDataEntries: Option<nat>)

  /** What splitting produces: the parts in order, or the "message too large" exception. */
  datatype SplitResult<T> = Parts(parts: seq<Envelope<T>>) | TooLarge

  /** The items a message carries (none when `data` is absent). */
  function Items<T>(m: Envelope<T>): seq<T>
  {
    if m.data.Some? then m.data.value else []
  }

  /** The items of several messages, concatenated in order. */
  function Concat<T>(ms: seq<Envelope<T>>): seq<T>
  {
    if ms == [] then [] else Items(ms[0]) + Concat(ms[1..])
  }

  lemma {:induction false} ConcatAppend<T>(a: seq<Envelope<T>>, b: seq<Envelope<T>>)
    ensures Concat(a + b) == Concat(a) + Concat(b)
  {
    if a == [] {
      assert a + b == b;
    } else {
      assert (a + b)[1..] == a[1..] + b;
      ConcatAppend(a[1..], b);
    }
  }

  /** A copy of `m` with its data emptied, framed as part `k` of a transfer of all of `m`'s items. */
  function FreshPart<T>(m: Envelope<T>, k: nat): Envelope<T>
    requires m.data.Some?
  {
    m.(data := Some([]), part := Some(k), totalDataEntries := Some(|m.data.value|))
  }

  function WithData<T>(p: Envelope<T>, items: seq<T>): Envelope<T>
  {
    p.(data := Some(items))
  }

  /** The first part while it holds the first `j` items. */
  function FirstPart<T>(m: Envelope<T>, j: nat): Envelope<T>
    requires m.data.Some? && j <= |m.data.value|
  {
    WithData(FreshPart(m, 1), m.data.value[..j])
  }

  /** Part `k` holding item `i` alone. */
  function SinglePart<T>(m: Envelope<T>, k: nat, i: nat): Envelope<T>
    requires m.data.Some? && i < |m.data.value|
  {
    WithData(FreshPart(m, k), [m.data.value[i]])
  }

  /** Item `i` alone fits under the limit in a fresh copy framed as part `k`. */
  predicate ElementFits<T>(m: Envelope<T>, size: Envelope<T> -> nat, max: nat, k: nat, i: nat)
    requires m.data.Some? && i < |m.data.value|
  {
    size(SinglePart(m, k, i)) <= max
  }

  /** Every item fits alone in a fresh copy whose empty form is under the limit, whatever its
      part number. Without this the splitting loop never ends: it keeps emitting empty parts.
      A fresh copy already at the limit is not constrained: the loop throws there. */
  predicate EveryElementFits<T>(m: Envelope<T>, size: Envelope<T> -> nat, max: nat)
    requires m.data.Some?
  {
    forall k, i | 1 <= k <= |m.data.value| && 0 <= i < |m.data.value| ::
      size(FreshPart(m, k)) < max ==> ElementFits(m, size, max, k, i)
  }

  /** Filling the first part, which holds the first `j` items at the start of this step:
      the number of items the first part ends up with, or None when the part being filled
      has already reached the limit (the exception). */
  function FirstPartLength<T>(m: Envelope<T>, size: Envelope<T> -> nat, max: nat, j: nat): (r: Option<nat>)
    requires m.data.Some? && j < |m.data.value|
    ensures r.Some? ==> j <= r.value <= |m.data.value|
    ensures r.Some? ==> size(FirstPart(m, r.value)) <= max
    ensures r.Some? && r.value < |m.data.value| ==>
              size(FirstPart(m, r.value + 1)) > max
    decreases |m.data.value| - j
  {
    var d := m.data.value;
    if size(FirstPart(m, j)) >= max then None
    else if size(FirstPart(m, j + 1)) > max then Some(j)
    else if j + 1 == |d| then Some(|d|)
    else FirstPartLength(m, size, max, j + 1)
  }

  /** Once the first part is closed the switch flag of the loop stays set, so every further
      part carries exactly one item: items `i..` as parts `k, k+1, …`, or None when a fresh
      copy is already at the limit. */
  function SingletonParts<T>(m: Envelope<T>, size: Envelope<T> -> nat, max: nat, i: nat, k: nat): (r: Option<seq<Envelope<T>>>)
    requires m.data.Some? && i <= |m.data.value|
    ensures r.Some? ==> |r.value| == |m.data.value| - i
    decreases |m.data.value| - i
  {
    if i == |m.data.value| then Some([])
    else if size(FreshPart(m, k)) >= max then None
    else match SingletonParts(m, size, max, i + 1, k + 1)
      case None => None
      case Some(rest) => Some([SinglePart(m, k, i)] + rest)
  }

  /** The parts `splitMessageIntoParts` returns, stated as a function of the message. */
  function Split<T>(m: Envelope<T>, size: Envelope<T> -> nat, max: nat): SplitResult<T>
    requires m.data.Some?
  {
    if |m.data.value| == 0 then Parts([])
    else AfterFirstPart(m, size, max, FirstPartLength(m, size, max, 0))
  }

  /** The split once the first part holds its first `j` items (`first == Some(j)`), or the
      exception (`first == None`). */
  function AfterFirstPart<T>(m: Envelope<T>, size: Envelope<T> -> nat, max: nat, first: Option<nat>): SplitResult<T>
    requires m.data.Some? && (first.Some? ==> first.value <= |m.data.value|)
  {
    match first
    case None => TooLarge
    case Some(j) => Combine([FirstPart(m, j)], SingletonParts(m, size, max, j, 2))
  }

  /** The remaining parts `rest` appended to those already closed, or the exception. */
  function Combine<T>(closed: seq<Envelope<T>>, rest: Option<seq<Envelope<T>>>): SplitResult<T>
  {
    if rest.None? then TooLarge else Parts(closed + rest.value)
  }

  /** What remains of the split when the loop is at item `c`, with the parts `closed` already
      closed; `switched` tells whether the first part has been closed. */
  ghost function Remaining<T>(m: Envelope<T>, size: Envelope<T> -> nat, max: nat, switched: bool, c: nat, closed: seq<Envelope<T>>): SplitResult<T>
    requires m.data.Some? && c <= |m.data.value|
  {
    if switched then Combine(closed, SingletonParts(m, size, max, c, |closed| + 1))
    else if c == |m.data.value| then Parts(closed)
    else AfterFirstPart(m, size, max, FirstPartLength(m, size, max, c))
  }

  lemma RemainingAtStart<T>(m: Envelope<T>, size: Envelope<T> -> nat, max: nat)
    requires m.data.Some?
    ensures Split(m, size, max) == Remaining(m, size, max, false, 0, [])
  {
  }

  lemma RemainingAtEnd<T>(m: Envelope<T>, size: Envelope<T> -> nat, max: nat, switched: bool, closed: seq<Envelope<T>>)
    requires m.data.Some?
    requires !switched ==> closed == []
    ensures Remaining(m, size, max, switched, |m.data.value|, closed) == Parts(closed)
  {
    assert closed + [] == closed;
  }

  /** A step that finds the first part, holding `d[..c]`, already at the limit. */
  lemma FirstPartFull<T>(m: Envelope<T>, size: Envelope<T> -> nat, max: nat, c: nat)
    requires m.data.Some? && c < |m.data.value|
    requires size(FirstPart(m, c)) >= max
    ensures Remaining(m, size, max, false, c, []) == TooLarge
  {
  }

  /** A step whose item does not fit into the first part: the first part is closed. */
  lemma FirstPartClose<T>(m: Envelope<T>, size: Envelope<T> -> nat, max: nat, c: nat)
    requires m.data.Some? && c < |m.data.value|
    requires size(FirstPart(m, c)) < max && size(FirstPart(m, c + 1)) > max
    ensures Remaining(m, size, max, false, c, []) == Remaining(m, size, max, true, c, [FirstPart(m, c)])
  {
  }

  /** A step whose item fits into the first part; the part is closed after the last item. */
  lemma FirstPartGrow<T>(m: Envelope<T>, size: Envelope<T> -> nat, max: nat, c: nat)
    requires m.data.Some? && c < |m.data.value|
    requires size(FirstPart(m, c)) < max && size(FirstPart(m, c + 1)) <= max
    ensures c + 1 < |m.data.value| ==>
              Remaining(m, size, max, false, c, []) == Remaining(m, size, max, false, c + 1, [])
    ensures c + 1 == |m.data.value| ==>
              Remaining(m, size, max, false, c, []) == Remaining(m, size, max, true, c + 1, [FirstPart(m, c + 1)])
  {
  }

  /** A step after the first part has been closed that finds the fresh copy at the limit. */
  lemma SingletonFull<T>(m: Envelope<T>, size: Envelope<T> -> nat, max: nat, c: nat, closed: seq<Envelope<T>>)
    requires m.data.Some? && c < |m.data.value|
    requires size(FreshPart(m, |closed| + 1)) >= max
    ensures Remaining(m, size, max, true, c, closed) == TooLarge
  {
  }

  /** A step after the first part has been closed: item `c` becomes a part of its own. */
  lemma SingletonStep<T>(m: Envelope<T>, size: Envelope<T> -> nat, max: nat, c: nat, closed: seq<Envelope<T>>)
    requires m.data.Some? && c < |m.data.value|
    requires size(FreshPart(m, |closed| + 1)) < max
    ensures Remaining(m, size, max, true, c, closed) ==
            Remaining(m, size, max, true, c + 1, closed + [SinglePart(m, |closed| + 1, c)])
  {
    var k := |closed| + 1;
    var p := SinglePart(m, k, c);
    match SingletonParts(m, size, max, c + 1, k + 1)
    case None =>
    case Some(rest) => assert closed + ([p] + rest) == (closed + [p]) + rest;
  }

  /** Pushing item `c` onto the message being filled, and popping it off again. */
  lemma PushItem<T>(m: Envelope<T>, current: Envelope<T>, c: nat, k: nat, switched: bool)
    requires m.data.Some? && c < |m.data.value|
    requires switched ==> current == FreshPart(m, k)
    requires !switched ==> current == (if c == 0 then FreshPart(m, 1) else FirstPart(m, c))
    ensures current.data.Some?
    ensures !switched ==> current == FirstPart(m, c)
    ensures var pushed := current.(data := Some(current.data.value + [m.data.value[c]]));
      && (!switched ==> pushed == FirstPart(m, c + 1))
      && (switched ==> pushed == SinglePart(m, k, c))
      && pushed.(data := Some(pushed.data.value[..|pushed.data.value| - 1])) == current
  {
    var d := m.data.value;
    assert d[..c] + [d[c]] == d[..c + 1];
    assert [] + [d[c]] == [d[c]];
    if !switched && c == 0 {
      assert d[..0] == [];
    }
  }

  /** The greedy packing loop: fills a copy of the message item by item and closes it when the
      next item would push it over the limit or when the items run out. It throws when the
      message being filled is already at or over the limit at the start of a step. */
  method SplitMessageIntoParts<T>(message: Envelope<T>, size: Envelope<T> -> nat, max: nat) returns (r: SplitResult<T>)
    requires message.data.Some?
    requires EveryElementFits(message, size, max)
    ensures r == Split(message, size, max)
  {
    RemainingAtStart(message, size, max);
    ghost var goal := Split(message, size, max);
    var d := message.data.value;
    var totalDataEntries := |d|;
    var messageParts: seq<Envelope<T>> := [];
    var currentMessage: Option<Envelope<T>> := None;
    var currentDataIndex: int := -1;
    var switchOutMessage := false;
    while currentDataIndex < totalDataEntries - 1
      invariant -1 <= currentDataIndex <= totalDataEntries - 1
      invariant currentMessage.Some? ==>
                  !switchOutMessage && 0 <= currentDataIndex &&
                  currentMessage.value == FirstPart(message, currentDataIndex + 1)
      invariant !switchOutMessage ==> messageParts == []
      invariant !switchOutMessage && currentMessage.None? ==> currentDataIndex == -1
      invariant switchOutMessage ==> 1 <= |messageParts| <= currentDataIndex + 1
      invariant goal == Remaining(message, size, max, switchOutMessage, currentDataIndex + 1, messageParts)
      decreases totalDataEntries - 1 - currentDataIndex, if currentMessage.Some? then 1 else 0
    {
      ghost var wasSwitched := switchOutMessage;
      ghost var c := currentDataIndex + 1;
      ghost var k := |messageParts| + 1;
      if currentMessage.None? {
        // A copy of the original with its data emptied, framed with the next part number.
        currentMessage := Some(FreshPart(message, |messageParts| + 1));
      }
      var current := currentMessage.value;
      ghost var before := current;
      PushItem(message, before, c, k, wasSwitched);
      var currentMessageSize := size(current);
      if currentMessageSize < max {
        var nextData := d[currentDataIndex + 1];
        if wasSwitched || c == 0 {
          // A fresh copy under the limit: the item fits alone, so this step makes progress.
          assert before == FreshPart(message, k);
          assert ElementFits(message, size, max, k, c);
        }
        current := current.(data := Some(current.data.value + [nextData]));
        var newMessageSize := size(current);
        if newMessageSize > max {
          // The item does not fit: take it out again and close this part.
          current := current.(data := Some(current.data.value[..|current.data.value| - 1]));
          switchOutMessage := true;
          FirstPartClose(message, size, max, c);
        } else {
          currentDataIndex := currentDataIndex + 1;
          if currentDataIndex == totalDataEntries - 1 {
            switchOutMessage := true;
          }
          if wasSwitched {
            SingletonStep(message, size, max, c, messageParts);
          } else {
            FirstPartGrow(message, size, max, c);
          }
        }
        currentMessage := Some(current);
      } else {
        if wasSwitched {
          SingletonFull(message, size, max, c, messageParts);
        } else {
          FirstPartFull(message, size, max, c);
        }
        return TooLarge;
      }
      if switchOutMessage {
        messageParts := messageParts + [currentMessage.value];
        currentMessage := None;
      }
    }
    RemainingAtEnd(message, size, max, switchOutMessage, messageParts);
    r := Parts(messageParts);
  }

  /** What `sendMessageIfOpen` hands to the socket: nothing when the socket is not open, a
      message without `data` as it is, and a message with `data` always split and framed,
      however small it is. */
  function SendMessageIfOpen<T>(message: Envelope<T>, socketOpen: bool, size: Envelope<T> -> nat, max: nat): (r: SplitResult<T>)
    requires socketOpen && message.data.Some? ==> EveryElementFits(message, size, max)
    ensures !socketOpen ==> r == Parts([])
    ensures socketOpen && message.data.None? ==> r == Parts([message])
    ensures socketOpen && message.data.Some? ==> (r.TooLarge? <==> Split(message, size, max).TooLarge?)
    ensures socketOpen && message.data.Some? && r.Parts? ==>
              Concat(r.parts) == message.data.value &&
              forall t | 0 <= t < |r.parts| :: r.parts[t].part == Some(t + 1)
  {
    if !socketOpen then Parts([])
    else if message.data.Some? then
      SplitRoundTrip(message, size, max);
      SplitFraming(message, size, max);
      Split(message, size, max)
    else Parts([message])
  }

  // ---------------------------------------------------------------------------------
  // Properties of the split

  /** Under the precondition no part is empty: the first item always fits into the first part. */
  lemma FirstPartNonEmpty<T>(m: Envelope<T>, size: Envelope<T> -> nat, max: nat)
    requires m.data.Some? && |m.data.value| > 0
    requires EveryElementFits(m, size, max)
    ensures FirstPartLength(m, size, max, 0).Some? ==> FirstPartLength(m, size, max, 0).value >= 1
  {
    var d := m.data.value;
    assert FirstPart(m, 0) == FreshPart(m, 1);
    if size(FreshPart(m, 1)) < max {
      assert ElementFits(m, size, max, 1, 0);
      assert d[..1] == [d[0]];
    }
  }

  lemma {:induction false} SingletonPartsConcat<T>(m: Envelope<T>, size: Envelope<T> -> nat, max: nat, i: nat, k: nat)
    requires m.data.Some? && i <= |m.data.value|
    requires SingletonParts(m, size, max, i, k).Some?
    ensures Concat(SingletonParts(m, size, max, i, k).value) == m.data.value[i..]
    decreases |m.data.value| - i
  {
    var d := m.data.value;
    if i < |d| {
      SingletonPartsConcat(m, size, max, i + 1, k + 1);
      var rest := SingletonParts(m, size, max, i + 1, k + 1).value;
      var p := SinglePart(m, k, i);
      assert ([p] + rest)[1..] == rest;
      assert d[i..] == [d[i]] + d[i + 1..];
    }
  }

  /** Round trip: the items of the parts, in order, are the original items. */
  lemma SplitRoundTrip<T>(m: Envelope<T>, size: Envelope<T> -> nat, max: nat)
    requires m.data.Some?
    ensures Split(m, size, max).Parts? ==> Concat(Split(m, size, max).parts) == m.data.value
  {
    var d := m.data.value;
    if |d| > 0 && Split(m, size, max).Parts? {
      var j := FirstPartLength(m, size, max, 0).value;
      var rest := SingletonParts(m, size, max, j, 2).value;
      var first := FirstPart(m, j);
      SingletonPartsConcat(m, size, max, j, 2);
      assert ([first] + rest)[1..] == rest;
      assert d == d[..j] + d[j..];
    }
  }

  lemma {:induction false} SingletonPartsShape<T>(m: Envelope<T>, size: Envelope<T> -> nat, max: nat, i: nat, k: nat)
    requires m.data.Some? && i <= |m.data.value|
    requires SingletonParts(m, size, max, i, k).Some?
    ensures forall t | 0 <= t < |SingletonParts(m, size, max, i, k).value| ::
              SingletonParts(m, size, max, i, k).value[t] == SinglePart(m, k + t, i + t)
    decreases |m.data.value| - i
  {
    var d := m.data.value;
    if i < |d| {
      SingletonPartsShape(m, size, max, i + 1, k + 1);
    }
  }

  /** Framing: part number t+1 sits at position t, every part carries the original item count,
      keeps every field of the original other than `data`, `part` and `totalDataEntries`, and
      holds at least one item; every part after the first holds exactly one item. */
  lemma SplitFraming<T>(m: Envelope<T>, size: Envelope<T> -> nat, max: nat)
    requires m.data.Some?
    requires EveryElementFits(m, size, max)
    ensures Split(m, size, max).Parts? ==>
      var ps := Split(m, size, max).parts;
      |ps| <= |m.data.value| &&
      forall t | 0 <= t < |ps| ::
        && ps[t].part == Some(t + 1)
        && ps[t].totalDataEntries == Some(|m.data.value|)
        && ps[t].data.Some? && 1 <= |ps[t].data.value|
        && (t > 0 ==> |ps[t].data.value| == 1)
        && ps[t].request == m.request && ps[t].status == m.status
        && ps[t].responseType == m.responseType && ps[t].message == m.message
  {
    var d := m.data.value;
    if |d| > 0 && Split(m, size, max).Parts? {
      FirstPartNonEmpty(m, size, max);
      var j := FirstPartLength(m, size, max, 0).value;
      SingletonPartsShape(m, size, max, j, 2);
    }
  }

  lemma {:induction false} SingletonPartsFit<T>(m: Envelope<T>, size: Envelope<T> -> nat, max: nat, i: nat, k: nat)
    requires m.data.Some? && i <= |m.data.value|
    requires EveryElementFits(m, size, max)
    requires 1 <= k <= i + 1
    requires SingletonParts(m, size, max, i, k).Some?
    ensures forall p | p in SingletonParts(m, size, max, i, k).value :: size(p) <= max
    decreases |m.data.value| - i
  {
    var d := m.data.value;
    if i < |d| {
      assert ElementFits(m, size, max, k, i);
      SingletonPartsFit(m, size, max, i + 1, k + 1);
    }
  }

  /** Size bound: every part the split returns fits under the limit. */
  lemma SplitSizeBound<T>(m: Envelope<T>, size: Envelope<T> -> nat, max: nat)
    requires m.data.Some?
    requires EveryElementFits(m, size, max)
    ensures Split(m, size, max).Parts? ==> forall p | p in Split(m, size, max).parts :: size(p) <= max
  {
    var d := m.data.value;
    if |d| > 0 && Split(m, size, max).Parts? {
      FirstPartNonEmpty(m, size, max);
      var j := FirstPartLength(m, size, max, 0).value;
      SingletonPartsFit(m, size, max, j, 2);
    }
  }

  /** Empty data gives no parts at all, so nothing is sent. */
  lemma SplitEmptyData<T>(m: Envelope<T>, size: Envelope<T> -> nat, max: nat)
    requires m.data == Some([])
    ensures Split(m, size, max) == Parts([])
  {
  }

  /** The exception: a non-empty message whose empty copy is already at the limit cannot be split. */
  lemma SplitFailsOnOversizedBase<T>(m: Envelope<T>, size: Envelope<T> -> nat, max: nat)
    requires m.data.Some? && |m.data.value| > 0
    requires size(FreshPart(m, 1)) >= max
    ensures Split(m, size, max) == TooLarge
  {
    assert FirstPart(m, 0) == FreshPart(m, 1);
  }

  /** Adding item `i` to the first part holding `i` items is a step that neither finds the
      part at the limit nor overflows it. */
  predicate StepFits<T>(m: Envelope<T>, size: Envelope<T> -> nat, max: nat, i: nat)
    requires m.data.Some? && i < |m.data.value|
  {
    size(FirstPart(m, i)) < max && size(FirstPart(m, i + 1)) <= max
  }

  /** Every step from `j` items up to `stop` items fits. */
  predicate FillsUpTo<T>(m: Envelope<T>, size: Envelope<T> -> nat, max: nat, j: nat, stop: nat)
    requires m.data.Some? && j <= stop < |m.data.value|
  {
    forall i | j <= i < stop :: StepFits(m, size, max, i)
  }

  /** Filling the first part from `j` items on ends in the exception exactly when the part
      reaches the limit at some `stop` before the last item after every step so far fit. */
  lemma FirstPartLengthFails<T>(m: Envelope<T>, size: Envelope<T> -> nat, max: nat, j: nat)
    requires m.data.Some? && j < |m.data.value|
    ensures FirstPartLength(m, size, max, j).None? <==>
              exists stop | j <= stop < |m.data.value| ::
                FillsUpTo(m, size, max, j, stop) && size(FirstPart(m, stop)) >= max
  {
    if FirstPartLength(m, size, max, j).None? {
      FirstPartLengthWitness(m, size, max, j);
    } else {
      forall stop | j <= stop < |m.data.value| && FillsUpTo(m, size, max, j, stop)
        ensures size(FirstPart(m, stop)) < max
      {
        if size(FirstPart(m, stop)) >= max {
          FirstPartFullAt(m, size, max, j, stop);
        }
      }
    }
  }

  /** Where the exception is raised, a part that reached the limit after fitting steps. */
  lemma {:induction false} FirstPartLengthWitness<T>(m: Envelope<T>, size: Envelope<T> -> nat, max: nat, j: nat)
    requires m.data.Some? && j < |m.data.value|
    requires FirstPartLength(m, size, max, j).None?
    ensures exists stop | j <= stop < |m.data.value| ::
              FillsUpTo(m, size, max, j, stop) && size(FirstPart(m, stop)) >= max
    decreases |m.data.value| - j
  {
    if size(FirstPart(m, j)) >= max {
      assert FillsUpTo(m, size, max, j, j);
    } else {
      FirstPartLengthWitness(m, size, max, j + 1);
      var stop :| j + 1 <= stop < |m.data.value| &&
                  FillsUpTo(m, size, max, j + 1, stop) && size(FirstPart(m, stop)) >= max;
      assert StepFits(m, size, max, j);
      assert FillsUpTo(m, size, max, j, stop);
    }
  }

  /** Fitting steps up to a part at the limit raise the exception. */
  lemma {:induction false} FirstPartFullAt<T>(m: Envelope<T>, size: Envelope<T> -> nat, max: nat, j: nat, stop: nat)
    requires m.data.Some? && j <= stop < |m.data.value|
    requires FillsUpTo(m, size, max, j, stop) && size(FirstPart(m, stop)) >= max
    ensures FirstPartLength(m, size, max, j) == None
    decreases stop - j
  {
    if j < stop {
      assert StepFits(m, size, max, j);
      assert FillsUpTo(m, size, max, j + 1, stop);
      FirstPartFullAt(m, size, max, j + 1, stop);
    }
  }

  /** The exception also hits a first part that reaches the limit exactly while items remain,
      after any number of items: each item fits, but the size check at the start of the next
      step uses `<`. */
  lemma SplitFailsWhenFirstPartIsExactlyFull<T>(m: Envelope<T>, size: Envelope<T> -> nat, max: nat, stop: nat)
    requires m.data.Some? && 1 <= stop < |m.data.value|
    requires FillsUpTo(m, size, max, 0, stop)
    requires size(FirstPart(m, stop)) >= max
    ensures size(FirstPart(m, stop)) == max
    ensures Split(m, size, max) == TooLarge
  {
    assert StepFits(m, size, max, stop - 1);
    FirstPartFullAt(m, size, max, 0, stop);
  }
}
