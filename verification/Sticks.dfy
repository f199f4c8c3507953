/**
 The memory sticks on both sides of the daemon socket: the array that the decoder grows for
 each memory device, and the list of the client, which is grown and filled message by message.
 */
module Sticks {
  import opened Bytes

  /** What is sent for one stick. */
  datatype StickData = StickData(
    manufacturer: string,
    partNumber: string,
    kind: string,
    typeDetail: string,
    deviceLocator: string,
    bankLocator: string,
    size: string,
    rank: string,
    speedMaximum: string,
    speedConfigured: string,
    voltageMinimum: string,
    voltageMaximum: string,
    voltageConfigured: string)

  /** What the client shows for one stick. */
  datatype Shown = Shown(
    manufacturer: string,
    partNumber: string,
    kind: string,
    typeDetail: string,
    deviceLocator: string,
    bankLocator: string,
    size: string,
    rank: string,
    speed: string,
    voltage: string)

  const BLANK := Shown("", "", "", "", "", "", "", "", "", "")

  /** What the client makes of the size text of a stick. */
  type Translation = string -> string

  // ----- The decoder's array

  /** The sticks that are sent after one more device; the counter has eight bits. */
  function AfterDevice(sent: seq<StickData>, stick: StickData): seq<StickData> {
    if |sent| == 255 then [] else sent + [stick]
  }

  /** The sticks that are sent for a list of devices. */
  function Reported(devices: seq<StickData>): seq<StickData> {
    if devices == [] then []
    else AfterDevice(Reported(devices[..|devices| - 1]), devices[|devices| - 1])
  }

  class DecoderData {
    var memory: seq<StickData>
    var stickCount: u8

    ghost predicate Valid()
      reads this
    {
      stickCount <= |memory|
    }

    ghost function Sent(): (s: seq<StickData>)
      requires Valid()
      reads this
    {
      memory[..stickCount]
    }

    constructor ()
      ensures Valid() && Sent() == []
    {
      memory := [];
      stickCount := 0;
    }

    /** Resizing to the counter plus one element cuts the array when the counter has wrapped. */
    method AddDevice(stick: StickData, granted: bool)
      requires Valid()
      modifies this
      ensures Valid()
      ensures Sent() == if granted then AfterDevice(old(Sent()), stick) else old(Sent())
    {
      if !granted {
        return;
      }
      memory := memory[..stickCount] + [stick];
      stickCount := (stickCount + 1) % 0x100;
    }
  }

  lemma NextRound(n: nat)
    ensures n / 256 * 256 <= n && n - n / 256 * 256 == n % 256
    ensures (n + 1) / 256 * 256 == if n % 256 == 255 then n + 1 else n / 256 * 256
  {
  }

  lemma ReportedMore(devices: seq<StickData>)
    requires devices != []
    ensures Reported(devices) == AfterDevice(Reported(devices[..|devices| - 1]), devices[|devices| - 1])
  {
  }

  lemma OneMore(devices: seq<StickData>, from: nat)
    requires from < |devices|
    ensures devices[..|devices| - 1][from..] + [devices[|devices| - 1]] == devices[from..]
  {
  }

  /** What is sent are the devices after the last full round of the counter. */
  lemma {:induction false} ReportedLastRound(devices: seq<StickData>)
    ensures |devices| / 256 * 256 <= |devices| && Reported(devices) == devices[|devices| / 256 * 256..]
    decreases |devices|
  {
    if devices != [] {
      var n := |devices| - 1;
      var from := n / 256 * 256;
      NextRound(n);
      ReportedLastRound(devices[..n]);
      ReportedMore(devices);
      OneMore(devices, from);
      hide Reported;
      assert n % 256 == 255 ==> devices[n + 1..] == [];
    }
  }

  lemma ReportedAllIff(devices: seq<StickData>)
    ensures Reported(devices) == devices <==> |devices| < 256
    ensures |Reported(devices)| < 256
  {
    ReportedLastRound(devices);
  }

  // ----- The client's list

  /** A part of a text, added behind a separator when there is a part before it. */
  function Extended(text: string, separated: bool, part: string, note: string): string {
    if part == "" then text else text + (if separated then " / " else "") + (part + note)
  }

  /** The first part of a text replaces what was there. */
  function Started(text: string, part: string, note: string): string {
    if part == "" then text else part + note
  }

  function SpeedText(was: string, m: StickData): string {
    Extended(Started(was, m.speedConfigured, " (configured)"), m.speedConfigured != "", m.speedMaximum, " (max)")
  }

  function VoltageText(was: string, m: StickData): string {
    var low := Started(was, m.voltageMinimum, " (min)");
    var middle := Extended(low, m.voltageMinimum != "", m.voltageConfigured, " (configured)");
    Extended(middle, m.voltageMinimum != "" || m.voltageConfigured != "", m.voltageMaximum, " (max)")
  }

  /** A stick of the list after a message has been written over it. */
  function Filled(was: Shown, m: StickData, translate: Translation): Shown {
    Shown(m.manufacturer, m.partNumber, m.kind, m.typeDetail, m.deviceLocator, m.bankLocator,
          translate(m.size), m.rank, SpeedText(was.speed, m), VoltageText(was.voltage, m))
  }

  /** Each label of a stick shows the field of its own name, whatever it has shown before. */
  lemma FieldsShown(was: Shown, m: StickData, translate: Translation)
    ensures var shown := Filled(was, m, translate);
      && shown.manufacturer == m.manufacturer && shown.partNumber == m.partNumber
      && shown.kind == m.kind && shown.typeDetail == m.typeDetail
      && shown.deviceLocator == m.deviceLocator && shown.bankLocator == m.bankLocator
      && shown.size == translate(m.size) && shown.rank == m.rank
  {
  }

  /** The sticks of some messages, each written over a blank. */
  function Fresh(messages: seq<StickData>, translate: Translation): seq<Shown> {
    seq(|messages|, k requires 0 <= k < |messages| => Filled(BLANK, messages[k], translate))
  }

  function SlotAt(sticks: seq<Shown>, k: nat): Shown {
    if k < |sticks| then sticks[k] else BLANK
  }

  /** The list after some messages: each adds a blank at the end and is written over the next stick from the front. */
  function Received(sticks: seq<Shown>, messages: seq<StickData>, translate: Translation): seq<Shown> {
    seq(|sticks| + |messages|, k requires 0 <= k < |sticks| + |messages| =>
      if k < |messages| then Filled(SlotAt(sticks, k), messages[k], translate) else SlotAt(sticks, k))
  }

  /** The list, and the selected stick with the number of sticks that is compared with. */
  datatype Tab = Tab(sticks: seq<Shown>, selected: u8, numSticks: u8)

  /** When the program starts there are no sticks, but 255 of them are allowed. */
  const START := Tab([], 0, 0xFF)

  /** The stick that is looked up; a selection that is not allowed becomes 0. */
  function Chosen(t: Tab): u8 {
    if t.selected < t.numSticks then t.selected else 0
  }

  /** The list after some messages, and the new number of sticks if all that were announced have come. */
  function AfterReceive(t: Tab, stickCount: u8, arriving: seq<StickData>, translate: Translation): Tab {
    if stickCount <= |arriving| then
      var sticks := Received(t.sticks, arriving[..stickCount], translate);
      Tab(sticks, t.selected, |sticks| % 0x100)
    else t.(sticks := Received(t.sticks, arriving, translate))
  }

  function AfterChoice(t: Tab, stick: u8): Tab {
    t.(selected := if stick < t.numSticks then stick else 0)
  }

  /** The selection is repaired, and an empty list gets a blank stick. */
  function AfterAccess(t: Tab): Tab {
    Tab(if t.sticks == [] then [BLANK] else t.sticks, Chosen(t), t.numSticks)
  }

  /** Whether looking up the selected stick finds one; the condition can be told before. */
  predicate AccessOk(t: Tab) {
    t.selected == 0 || t.selected >= t.numSticks || t.selected < |t.sticks|
  }

  class MemoryTab {
    var sticks: seq<Shown>
    var selected: u8
    var numSticks: u8

    function Now(): Tab
      reads this
    {
      Tab(sticks, selected, numSticks)
    }

    constructor ()
      ensures Now() == START
    {
      sticks, selected, numSticks := [], 0, 0xFF;
    }

    method GrowSticksVector()
      modifies this`sticks
      ensures sticks == old(sticks) + [BLANK]
    {
      sticks := sticks + [BLANK];
    }

    /** The last part of a table decoder call; the transfers fail after the messages that arrive. */
    method ReceiveSticks(stickCount: u8, arriving: seq<StickData>, translate: Translation) returns (ok: bool)
      modifies this
      ensures ok <==> stickCount <= |arriving|
      ensures selected == old(selected) && numSticks == if ok then |sticks| % 0x100 else old(numSticks)
      ensures |sticks| == |old(sticks)| + if ok then stickCount else |arriving|
      ensures forall k :: 0 <= k < |sticks| - |old(sticks)| ==>
        sticks[k] == Filled(if k < |old(sticks)| then old(sticks)[k] else BLANK, arriving[k], translate)
      ensures forall k :: |sticks| - |old(sticks)| <= k < |sticks| ==>
        sticks[k] == if k < |old(sticks)| then old(sticks)[k] else BLANK
      ensures Now() == AfterReceive(old(Now()), stickCount, arriving, translate)
    {
      var i: u8 := 0;
      assert sticks == Received(sticks, [], translate);
      while i < stickCount
        invariant i <= stickCount && i <= |arriving|
        invariant sticks == Received(old(sticks), arriving[..i], translate)
        invariant numSticks == old(numSticks) && selected == old(selected)
      {
        if i == |arriving| {
          assert arriving[..i] == arriving;
          return false;
        }
        GrowSticksVector();
        sticks := sticks[i := Filled(sticks[i], arriving[i], translate)];
        ReceivedNext(old(sticks), arriving, i, translate);
        i := i + 1;
      }
      numSticks := |sticks| % 0x100;
      return true;
    }

    method CheckSelectedStickValid(stick: u8) returns (ok: bool)
      modifies this`selected
      ensures ok <==> stick < numSticks
      ensures selected == if ok then old(selected) else 0
    {
      if stick < numSticks {
        return true;
      }
      selected := 0;
      return false;
    }

    method GetSelectedStickNumber() returns (n: u8)
      modifies this`selected
      ensures n == selected == if old(selected) < numSticks then old(selected) else 0
      ensures n == Chosen(old(Now()))
    {
      var _ := CheckSelectedStickValid(selected);
      return selected;
    }

    method SetSelectedStick(stick: u8) returns (ok: bool)
      modifies this`selected
      ensures ok <==> stick < numSticks
      ensures selected == if ok then stick else 0
      ensures Now() == AfterChoice(old(Now()), stick)
    {
      ok := CheckSelectedStickValid(stick);
      if ok {
        selected := stick;
      }
    }

    /** The index of the selected stick, or None when looking it up goes past the end of the list. */
    method GetSelectedStick() returns (index: Option<nat>)
      modifies this
      ensures numSticks == old(numSticks) && selected == if old(selected) < numSticks then old(selected) else 0
      ensures sticks == if old(sticks) == [] then [BLANK] else old(sticks)
      ensures Now() == AfterAccess(old(Now()))
      ensures index == if AccessOk(old(Now())) then Some(selected) else None
      ensures index.Some? ==> index.value < |sticks|
    {
      var n := GetSelectedStickNumber();
      var _ := SetSelectedStick(n);
      if |sticks| == 0 {
        GrowSticksVector();
      }
      n := GetSelectedStickNumber();
      return if n < |sticks| then Some(n) else None;
    }
  }

  // ----- Runs of the memory tab

  datatype Op =
    | Choose(stick: u8)
    | Receive(stickCount: u8, arriving: seq<StickData>)
    | Access

  predicate Completes(op: Op) {
    op.Receive? && op.stickCount <= |op.arriving|
  }

  function Apply(t: Tab, op: Op, translate: Translation): Tab {
    match op
    case Choose(stick) => AfterChoice(t, stick)
    case Receive(stickCount, arriving) => AfterReceive(t, stickCount, arriving, translate)
    case Access => AfterAccess(t)
  }

  function ApplyAll(ops: seq<Op>, translate: Translation): Tab {
    if ops == [] then START else Apply(ApplyAll(ops[..|ops| - 1], translate), ops[|ops| - 1], translate)
  }

  /**
   In every run of the program: once a transfer has completed, looking up the selected stick
   always finds one. Before that it goes wrong exactly for a selection other than 0 and
   255 that is not below the number of sticks that have come.
   */
  lemma {:induction false} AccessAfterRun(ops: seq<Op>, translate: Translation)
    ensures var t := ApplyAll(ops, translate);
      if exists k :: 0 <= k < |ops| && Completes(ops[k]) then t.numSticks <= |t.sticks| && AccessOk(t)
      else t.numSticks == 0xFF && (AccessOk(t) <==> t.selected == 0 || t.selected == 0xFF || t.selected < |t.sticks|)
    decreases |ops|
  {
    hide Filled;
    if ops != [] {
      var front, op := ops[..|ops| - 1], ops[|ops| - 1];
      AccessAfterRun(front, translate);
      if exists k :: 0 <= k < |front| && Completes(front[k]) {
        var k :| 0 <= k < |front| && Completes(front[k]);
        assert Completes(ops[k]);
      } else {
        assert forall k :: 0 <= k < |front| ==> ops[k] == front[k];
      }
    }
  }

  /**
   A selection given on the command line or saved by the user, then a transfer that fails
   after some sticks: when the lookup goes wrong.
   */
  lemma BrokenTransferIff(stick: u8, stickCount: u8, arriving: seq<StickData>, translate: Translation)
    requires |arriving| < stickCount
    ensures AccessOk(ApplyAll([Choose(stick), Receive(stickCount, arriving)], translate)) <==>
      stick == 0 || stick == 0xFF || stick < |arriving|
  {
    var ops := [Choose(stick), Receive(stickCount, arriving)];
    assert ops[..1] == [Choose(stick)] && ops[..1][..0] == [];
    assert ApplyAll(ops[..1], translate) == AfterChoice(START, stick);
  }

  /** The second stick is selected, two are announced, one arrives. */
  lemma BrokenTransferFails(m: StickData, translate: Translation)
    ensures !AccessOk(ApplyAll([Choose(1), Receive(2, [m])], translate))
  {
    BrokenTransferIff(1, 2, [m], translate);
  }

  lemma ReceivedNext(sticks: seq<Shown>, messages: seq<StickData>, i: nat, translate: Translation)
    requires i < |messages|
    ensures var grown := Received(sticks, messages[..i], translate) + [BLANK];
      && i < |grown|
      && Received(sticks, messages[..i + 1], translate) == grown[i := Filled(grown[i], messages[i], translate)]
  {
    hide Filled;
    var before, after := Received(sticks, messages[..i], translate), Received(sticks, messages[..i + 1], translate);
    var grown := before + [BLANK];
    assert grown[i] == SlotAt(sticks, i);
    forall k | 0 <= k < |after|
      ensures after[k] == grown[i := Filled(grown[i], messages[i], translate)][k]
    {
    }
  }

  /** The client lists just what was sent exactly when its list was empty before. */
  lemma ListFreshIff(sticks: seq<Shown>, messages: seq<StickData>, translate: Translation)
    ensures Received(sticks, messages, translate) == Fresh(messages, translate) <==> sticks == []
  {
    hide Filled;
    if sticks == [] {
      assert Received(sticks, messages, translate) == Fresh(messages, translate);
    } else {
      assert |Received(sticks, messages, translate)| != |Fresh(messages, translate)|;
    }
  }

  /** A message hides what was shown before unless it lacks the first part of a text that was not empty. */
  lemma StaleTextIff(was: Shown, m: StickData, translate: Translation)
    ensures Filled(was, m, translate) == Filled(BLANK, m, translate) <==>
      && (was.speed == "" || m.speedConfigured != "")
      && (was.voltage == "" || m.voltageMinimum != "")
  {
    assert m.speedConfigured == "" ==> |SpeedText(was.speed, m)| == |was.speed| + |SpeedText("", m)|;
    assert m.voltageMinimum == "" ==> |VoltageText(was.voltage, m)| == |was.voltage| + |VoltageText("", m)|;
  }

  // ----- The texts of a fresh stick

  datatype Part = Part(text: string, note: string)

  /** The parts that are not empty. */
  function Present(parts: seq<Part>): seq<string> {
    if parts == [] then []
    else (if parts[0].text == "" then [] else [parts[0].text + parts[0].note]) + Present(parts[1..])
  }

  function Joined(texts: seq<string>): string {
    if texts == [] then ""
    else if |texts| == 1 then texts[0]
    else texts[0] + " / " + Joined(texts[1..])
  }

  lemma PresentFirst(parts: seq<Part>)
    requires parts != []
    ensures var rest := Present(parts[1..]);
      Present(parts) == if parts[0].text == "" then rest else [parts[0].text + parts[0].note] + rest
  {
  }

  /** On a blank stick the texts are the parts that were sent, in order, with separators between them only. */
  lemma FreshTexts(m: StickData)
    ensures SpeedText("", m) == Joined(Present([
      Part(m.speedConfigured, " (configured)"), Part(m.speedMaximum, " (max)")]))
    ensures VoltageText("", m) == Joined(Present([
      Part(m.voltageMinimum, " (min)"), Part(m.voltageConfigured, " (configured)"), Part(m.voltageMaximum, " (max)")]))
  {
    hide Present, Joined;
    var conf, most := Part(m.speedConfigured, " (configured)"), Part(m.speedMaximum, " (max)");
    PresentTwo(conf, most);
    JoinedFew(Present([conf, most]));
    FirstPart("", false, m.speedMaximum, " (max)");
    var low, middle := Part(m.voltageMinimum, " (min)"), Part(m.voltageConfigured, " (configured)");
    var high := Part(m.voltageMaximum, " (max)");
    PresentTwo(middle, high);
    PresentFirst([low, middle, high]);
    assert [low, middle, high][1..] == [middle, high];
    JoinedFew(Present([low, middle, high]));
    FirstPart("", false, m.voltageConfigured, " (configured)");
    FirstPart("", false, m.voltageMaximum, " (max)");
  }

  lemma FirstPart(text: string, separated: bool, part: string, note: string)
    requires text == "" && !separated
    ensures Extended(text, separated, part, note) == if part == "" then "" else part + note
  {
  }

  lemma JoinedFew(texts: seq<string>)
    requires |texts| <= 3
    ensures texts == [] ==> Joined(texts) == ""
    ensures |texts| == 1 ==> Joined(texts) == texts[0]
    ensures |texts| == 2 ==> Joined(texts) == texts[0] + " / " + texts[1]
    ensures |texts| == 3 ==> Joined(texts) == texts[0] + " / " + texts[1] + " / " + texts[2]
  {
    if |texts| == 2 {
      assert texts[1..] == [texts[1]];
    }
    if |texts| == 3 {
      var rest := texts[1..];
      assert rest == [texts[1], texts[2]] && rest[1..] == [texts[2]];
      assert Joined(rest) == texts[1] + " / " + texts[2];
      assert texts[0] + " / " + Joined(rest) == texts[0] + " / " + texts[1] + " / " + texts[2];
    }
  }

  lemma PresentTwo(a: Part, b: Part)
    ensures Present([a, b]) ==
      (if a.text == "" then [] else [a.text + a.note]) + (if b.text == "" then [] else [b.text + b.note])
  {
    assert [a, b][1..] == [b] && [b][1..] == [];
    PresentFirst([a, b]);
    PresentFirst([b]);
  }
}
