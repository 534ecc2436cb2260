/**
 * The pneumatic cannon as one object over five topics: a pressure set-point
 * and reading, a command input and state report, and an automatic-mode flag.
 * Commands are numeric codes written to the command input, which the
 * controller expects to see cleared (code 0) around every command.
 */
module Cannon {
  import opened Values
  import opened SmartTopics

  /** A dictionary literal, as its (name, code) pairs in declaration order. */
  type Table = seq<(string, int)>

  const StateEnums: Table := [
    ("UNKNOWN", 0), ("Emergency Stopped", 254), ("Idle", 1),
    ("Waiting for pressure", 2), ("Pressurizing", 3), ("Venting", 4),
    ("Ready", 5), ("Armed", 6), ("Firing", 7)
  ]

  const ActionEnums: Table := [
    ("clear_input", 0), ("vent", 1), ("set_auto", 2), ("disable_auto", 3),
    ("fill", 4), ("arm", 5), ("disarm", 6), ("idle", 7)
  ]

  const ClearInput: int := 0

  ghost predicate DistinctNames(table: Table)
  {
    forall i, j :: 0 <= i < j < |table| ==> table[i].0 != table[j].0
  }

  ghost predicate DistinctCodes(table: Table)
  {
    forall i, j :: 0 <= i < j < |table| ==> table[i].1 != table[j].1
  }

  /** `table[name]`: the code stored under `name`, if any. */
  function Code(table: Table, name: string): (r: Option<int>)
    ensures r.None? <==> forall i :: 0 <= i < |table| ==> table[i].0 != name
    ensures r.Some? ==> exists i :: 0 <= i < |table| && table[i] == (name, r.value)
  {
    if table == [] then None
    else if table[0].0 == name then Some(table[0].1)
    else
      var r := Code(table[1..], name);
      assert forall i :: 1 <= i < |table| ==> table[i] == table[1..][i - 1];
      r
  }

  /**
   * `keys[values.index(code)]`: the name of the first entry whose code equals
   * `x`, if any.
   */
  function NameOf(table: Table, x: real): (r: Option<string>)
    ensures r.None? <==> forall i :: 0 <= i < |table| ==> table[i].1 as real != x
    ensures r.Some? ==> exists i :: 0 <= i < |table| && table[i].0 == r.value && table[i].1 as real == x
                          && forall j :: 0 <= j < i ==> table[j].1 as real != x
  {
    if table == [] then None
    else if table[0].1 as real == x then Some(table[0].0)
    else
      var r := NameOf(table[1..], x);
      assert forall i :: 1 <= i < |table| ==> table[i] == table[1..][i - 1];
      if r.Some? then
        ghost var i :| 0 <= i < |table[1..]| && table[1..][i].0 == r.value && table[1..][i].1 as real == x
                       && forall j :: 0 <= j < i ==> table[1..][j].1 as real != x;
        assert table[i + 1].0 == r.value && table[i + 1].1 as real == x;
        assert forall j :: 1 <= j < i + 1 ==> table[j].1 as real != x;
        r
      else r
  }

  /** With distinct codes, looking up a code gives back the one name that carries it. */
  lemma NameOfInverts(table: Table, i: nat)
    requires DistinctCodes(table) && i < |table|
    ensures NameOf(table, table[i].1 as real) == Some(table[i].0)
  {
    var r := NameOf(table, table[i].1 as real);
    var k :| 0 <= k < |table| && table[k].0 == r.value && table[k].1 as real == table[i].1 as real
             && forall j :: 0 <= j < k ==> table[j].1 as real != table[i].1 as real;
    assert k == i;
  }

  /** With distinct names, looking up a name gives back its code. */
  lemma CodeInverts(table: Table, i: nat)
    requires DistinctNames(table) && i < |table|
    ensures Code(table, table[i].0) == Some(table[i].1)
  {
    var r := Code(table, table[i].0);
    var k :| 0 <= k < |table| && table[k] == (table[i].0, r.value);
    assert k == i;
  }

  lemma StateCodesDistinct()
    ensures DistinctCodes(StateEnums)
  {
  }

  lemma StateNamesDistinct()
    ensures DistinctNames(StateEnums)
  {
  }

  lemma ActionCodesDistinct()
    ensures DistinctCodes(ActionEnums)
  {
  }

  lemma ActionNamesDistinct()
    ensures DistinctNames(ActionEnums)
  {
  }

  /** Both tables map names to codes one-to-one. */
  lemma EnumsAreDistinct()
    ensures DistinctCodes(StateEnums) && DistinctNames(StateEnums)
    ensures DistinctCodes(ActionEnums) && DistinctNames(ActionEnums)
  {
    StateCodesDistinct();
    StateNamesDistinct();
    ActionCodesDistinct();
    ActionNamesDistinct();
  }

  /** What the state report shows. */
  datatype CannonState = NoStateData | UnknownState(v: Value) | KnownState(name: string)

  /** The reading of a raw state value: no data, an unknown code, or the state's name. */
  function StateName(v: Value): (r: CannonState)
    ensures r == NoStateData <==> v == Null
    ensures r.UnknownState? <==>
              v != Null && !(v.Num? && exists i :: 0 <= i < |StateEnums| && StateEnums[i].1 as real == v.x)
    ensures r.UnknownState? ==> r.v == v
    ensures r.KnownState? ==>
              v.Num? && exists i :: 0 <= i < |StateEnums| && StateEnums[i] == (r.name, v.x.Floor)
                                   && StateEnums[i].1 as real == v.x
  {
    if v == Null then NoStateData
    else if !v.Num? then UnknownState(v)
    else match NameOf(StateEnums, v.x)
      case None => UnknownState(v)
      case Some(name) => KnownState(name)
  }

  /** Every state code reads back as its own name. */
  lemma StateNameRoundTrip(i: nat)
    requires i < |StateEnums|
    ensures StateName(Num(StateEnums[i].1 as real)) == KnownState(StateEnums[i].0)
  {
    StateCodesDistinct();
    NameOfInverts(StateEnums, i);
  }

  /** Some of `ts`, scanned in order, is stale at `now`. */
  predicate AnyStale(ts: seq<SmartTopic>, now: real)
    reads set t | t in ts
  {
    if ts == [] then false
    else if ts[0].IsStale(now) then true
    else AnyStale(ts[1..], now)
  }

  /** All of `ts`, scanned in order, have data. */
  predicate AllHaveData(ts: seq<SmartTopic>)
    reads set t | t in ts
  {
    if ts == [] then true
    else if !ts[0].hasData then false
    else AllHaveData(ts[1..])
  }

  lemma {:induction false} AnyStaleMeansSome(ts: seq<SmartTopic>, now: real)
    ensures AnyStale(ts, now) <==> exists i :: 0 <= i < |ts| && ts[i].IsStale(now)
  {
    if ts != [] {
      AnyStaleMeansSome(ts[1..], now);
      assert forall i :: 1 <= i < |ts| ==> ts[i] == ts[1..][i - 1];
    }
  }

  lemma {:induction false} AllHaveDataMeansEvery(ts: seq<SmartTopic>)
    ensures AllHaveData(ts) <==> forall i :: 0 <= i < |ts| ==> ts[i].hasData
  {
    if ts != [] {
      AllHaveDataMeansEvery(ts[1..]);
      assert forall i :: 1 <= i < |ts| ==> ts[i] == ts[1..][i - 1];
    }
  }

  /** Why a command was refused. */
  datatype CommandError =
    | TopicMissing                 // the command topic does not exist
    | Busy(current: Value)         // the command input has not been cleared
    | InvalidState(state: string)  // the action name is not known
    | UnknownAction(state: string) // dictionary lookup of an unknown action name
    | WriteFailed(error: WriteError)

  datatype CommandOutcome = Sent | Failed(error: CommandError)

  /** A topic on which an existing-topic write publishes a `{"data": v}` envelope. */
  predicate ScalarWritable(t: SmartTopic)
    reads t`topicType
  {
    t.allowUpdate && t.topicType != Some(TwistType)
  }

  function Data(code: int): Message
  {
    DataMessage(Num(code as real))
  }

  /**
   * On an existing topic, a numeric write publishes its envelope when the
   * topic is scalar-writable, and otherwise fails the same way whatever the
   * number is.
   */
  lemma NumericWrite(t: SmartTopic, c: int)
    requires t.topicExists
    ensures ScalarWritable(t) ==> t.WriteEffect(Num(c as real)) == Published(Data(c))
    ensures !ScalarWritable(t) ==> t.WriteEffect(Num(c as real)) == t.WriteEffect(Num(0.0))
                                   && t.WriteEffect(Num(0.0)).Rejected?
  {
  }

  class CannonCombinedTopic {
    const setPressureTopic: SmartTopic
    const getPressureTopic: SmartTopic
    const setStateTopic: SmartTopic
    const getStateTopic: SmartTopic
    const getAutoTopic: SmartTopic

    constructor (setPressureTopic: SmartTopic, getPressureTopic: SmartTopic,
                 setStateTopic: SmartTopic, getStateTopic: SmartTopic, getAutoTopic: SmartTopic)
      ensures this.setPressureTopic == setPressureTopic && this.getPressureTopic == getPressureTopic
      ensures this.setStateTopic == setStateTopic && this.getStateTopic == getStateTopic
      ensures this.getAutoTopic == getAutoTopic
    {
      this.setPressureTopic := setPressureTopic;
      this.getPressureTopic := getPressureTopic;
      this.setStateTopic := setStateTopic;
      this.getStateTopic := getStateTopic;
      this.getAutoTopic := getAutoTopic;
    }

    /** Write the pressure set-point; a refused write is logged and swallowed. */
    method SetPressure(pressure: Value)
      modifies setPressureTopic`published
      ensures var w := setPressureTopic.WriteEffect(pressure);
              setPressureTopic.published ==
                if w.Published? then old(setPressureTopic.published) + [w.msg]
                else old(setPressureTopic.published)
    {
      var _ := setPressureTopic.SetValue(pressure);
    }

    /** The pressure reading, 0 until the first message. */
    function GetPressure(): (p: Value)
      reads getPressureTopic
      ensures getPressureTopic.hasData ==> p == getPressureTopic.value
      ensures !getPressureTopic.hasData ==> p == Num(0.0)
    {
      if getPressureTopic.hasData then getPressureTopic.value else Num(0.0)
    }

    /** The state report: no data, an unknown value, or the name of a known state code. */
    function GetState(): (r: CannonState)
      reads getStateTopic
      ensures r == NoStateData <==> getStateTopic.value == Null
      ensures r.UnknownState? ==> r.v == getStateTopic.value
      ensures forall i :: 0 <= i < |StateEnums| && getStateTopic.value == Num(StateEnums[i].1 as real) ==>
                r == KnownState(StateEnums[i].0)
    {
      forall i | 0 <= i < |StateEnums| && getStateTopic.value == Num(StateEnums[i].1 as real)
        ensures StateName(getStateTopic.value) == KnownState(StateEnums[i].0)
      {
        StateNameRoundTrip(i);
      }
      StateName(getStateTopic.value)
    }

    /** The automatic-mode flag, false until the first message. */
    function GetAuto(): (a: Value)
      reads getAutoTopic
      ensures getAutoTopic.hasData ==> a == getAutoTopic.value
      ensures !getAutoTopic.hasData ==> a == Bool(false)
    {
      if getAutoTopic.hasData then getAutoTopic.value else Bool(false)
    }

    function Watched(): seq<SmartTopic>
    {
      [getPressureTopic, getStateTopic, getAutoTopic]
    }

    /** Any of the three read-back topics is stale. */
    predicate IsStale(now: real)
      reads getPressureTopic, getStateTopic, getAutoTopic
      ensures IsStale(now) <==>
                getPressureTopic.IsStale(now) || getStateTopic.IsStale(now) || getAutoTopic.IsStale(now)
    {
      var ts := Watched();
      AnyStaleMeansSome(ts, now);
      assert ts[0].IsStale(now) || ts[1].IsStale(now) || ts[2].IsStale(now) <==>
             exists i :: 0 <= i < |ts| && ts[i].IsStale(now);
      AnyStale(ts, now)
    }

    /** All three read-back topics have data. */
    predicate HasData()
      reads getPressureTopic, getStateTopic, getAutoTopic
      ensures HasData() <==>
                getPressureTopic.hasData && getStateTopic.hasData && getAutoTopic.hasData
    {
      var ts := Watched();
      AllHaveDataMeansEvery(ts);
      assert ts[0].hasData && ts[1].hasData && ts[2].hasData <==>
             forall i :: 0 <= i < |ts| ==> ts[i].hasData;
      AllHaveData(ts)
    }

    /** One write of `c` to the command topic, which publishes it exactly when the topic is scalar-writable. */
    method WriteCode(c: int) returns (w: WriteOutcome)
      requires setStateTopic.topicExists
      modifies setStateTopic`published
      ensures ScalarWritable(setStateTopic) ==>
                w.Published? && setStateTopic.published == old(setStateTopic.published) + [Data(c)]
      ensures !ScalarWritable(setStateTopic) ==>
                w == setStateTopic.WriteEffect(Num(0.0)) && w.Rejected?
                && setStateTopic.published == old(setStateTopic.published)
    {
      NumericWrite(setStateTopic, c);
      w := setStateTopic.SetValue(Num(c as real));
    }

    /**
     * Send a named action. The command input must exist and be cleared (or
     * have no value yet). From a cleared input the action code is followed
     * by four clears; from an input with no value the code is framed by a
     * clear on each side, and an unknown name raises only after the first
     * clear went out.
     */
    method SendCommand(state: string) returns (r: CommandOutcome)
      modifies setStateTopic`published
      ensures var t, v, c := setStateTopic, setStateTopic.value, Code(ActionEnums, state);
        && (!t.topicExists ==> r == Failed(TopicMissing))
        && (t.topicExists && v != Null && v != Num(0.0) ==> r == Failed(Busy(v)))
        && (t.topicExists && v == Num(0.0) && c.None? ==> r == Failed(InvalidState(state)))
        && (t.topicExists && (v == Null || (v == Num(0.0) && c.Some?)) && !ScalarWritable(t) ==>
              r == Failed(WriteFailed(t.WriteEffect(Num(0.0)).error)))
        && (t.topicExists && v == Null && ScalarWritable(t) && c.None? ==>
              r == Failed(UnknownAction(state)) && t.published == old(t.published) + [Data(ClearInput)])
        && (t.topicExists && v == Null && ScalarWritable(t) && c.Some? ==>
              r == Sent
              && t.published == old(t.published) + [Data(ClearInput), Data(c.value), Data(ClearInput)])
        && (t.topicExists && v == Num(0.0) && ScalarWritable(t) && c.Some? ==>
              r == Sent
              && t.published == old(t.published) + [Data(c.value)]
                                + [Data(ClearInput), Data(ClearInput), Data(ClearInput), Data(ClearInput)])
        && (!(t.topicExists && v == Null && ScalarWritable(t)) && !r.Sent? ==>
              t.published == old(t.published))
    {
      var t := setStateTopic;
      if !t.topicExists {
        return Failed(TopicMissing);
      }
      if t.value == Null {
        var w := WriteCode(ClearInput);
        if w.Rejected? {
          return Failed(WriteFailed(w.error));
        }
        var code := Code(ActionEnums, state);
        if code.None? {
          return Failed(UnknownAction(state));
        }
        w := WriteCode(code.value);
        w := WriteCode(ClearInput);
        return Sent;
      }
      if t.value != Num(ClearInput as real) {
        return Failed(Busy(t.value));
      }
      var code := Code(ActionEnums, state);
      if code.None? {
        return Failed(InvalidState(state));
      }
      var w := WriteCode(code.value);
      if w.Rejected? {
        return Failed(WriteFailed(w.error));
      }
      ghost var start := t.published;
      for i := 0 to 4
        invariant t.published == start + seq(i, _ => Data(ClearInput))
      {
        w := WriteCode(ClearInput);
      }
      assert seq(4, _ => Data(ClearInput)) == [Data(ClearInput), Data(ClearInput), Data(ClearInput), Data(ClearInput)];
      return Sent;
    }
  }
}
