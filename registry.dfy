/**
 * The registry of topics: an insertion-ordered dictionary from display name
 * to topic. Overwriting a name keeps its original position, as a Python dict
 * does; lookup scans in that order and matches either name of a topic.
 */
module TopicRegistry {
  import opened SmartTopics

  /** Whether `t` answers to `name`, by display name or by wire name. */
  predicate Matches(t: SmartTopic, name: string)
  {
    t.dispName == name || t.topicName == name
  }

  class RobotState {
    /** Display names in first-insertion order. */
    var order: seq<string>
    var topics: map<string, SmartTopic>

    ghost predicate Valid()
      reads this
    {
      && (forall i, j :: 0 <= i < j < |order| ==> order[i] != order[j])
      && (forall k :: k in topics <==> k in order)
      && (forall k :: k in topics ==> topics[k].dispName == k)
    }

    constructor ()
      ensures Valid() && order == [] && topics == map[]
    {
      order := [];
      topics := map[];
    }

    /** Store `t` under its display name; a later topic with that name replaces the earlier. */
    method AddWatcher(t: SmartTopic)
      requires Valid()
      modifies this`order, this`topics
      ensures Valid()
      ensures topics == old(topics)[t.dispName := t]
      ensures order == if t.dispName in old(topics) then old(order) else old(order) + [t.dispName]
    {
      if t.dispName !in topics {
        order := order + [t.dispName];
      }
      topics := topics[t.dispName := t];
    }

    /** All registered topics in registration order. */
    function States(): (r: seq<SmartTopic>)
      requires Valid()
      reads this
      ensures |r| == |order|
      ensures forall i :: 0 <= i < |order| ==> r[i] == topics[order[i]] && r[i].dispName == order[i]
    {
      var o, m := order, topics;
      seq(|o|, i requires 0 <= i < |o| && o[i] in m => m[o[i]])
    }

    /**
     * The first registered topic, in insertion order, whose display name or
     * wire name is `name`; null when none matches.
     */
    method State(name: string) returns (r: SmartTopic?)
      requires Valid()
      ensures r == null <==> forall t :: t in States() ==> !Matches(t, name)
      ensures r != null ==>
                exists i :: 0 <= i < |States()| && States()[i] == r && Matches(r, name)
                  && forall j :: 0 <= j < i ==> !Matches(States()[j], name)
    {
      var all := States();
      var i := 0;
      while i < |all|
        invariant 0 <= i <= |all|
        invariant forall j :: 0 <= j < i ==> !Matches(all[j], name)
      {
        if Matches(all[i], name) {
          return all[i];
        }
        i := i + 1;
      }
      return null;
    }
  }

  /**
   * Registering a topic whose display name is new appends it; looking that
   * name up then finds it unless an earlier topic carries it as a wire name.
   */
  method AddThenFind(reg: RobotState, t: SmartTopic) returns (r: SmartTopic?)
    requires reg.Valid()
    requires forall u :: u in reg.topics.Values ==> !Matches(u, t.dispName)
    modifies reg`order, reg`topics
    ensures r == t
  {
    ghost var before, names := reg.topics, reg.order;
    assert forall k :: k in before ==> before[k] in before.Values;
    assert t.dispName !in before;
    reg.AddWatcher(t);
    var all := reg.States();
    assert all[|names|] == t;
    forall j | 0 <= j < |names|
      ensures !Matches(all[j], t.dispName)
    {
      assert reg.order[j] == names[j];
      assert all[j] == before[names[j]];
    }
    r := reg.State(t.dispName);
    assert r != null by {
      assert Matches(all[|names|], t.dispName);
    }
    ghost var i :| 0 <= i < |all| && all[i] == r && Matches(r, t.dispName);
    assert i == |names|;
  }
}
