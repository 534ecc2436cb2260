/**
 * The earlier change-detecting cache: one `State` per topic with a boolean
 * change flag and a `reading` guard, and a registry whose lookup of a
 * missing name is an error rather than a null.
 */
module LegacyState {
  import opened Values

  const NoUpdate: Value := Str("No update")

  /** The topic type that the registry hands to an image handler. */
  const ImageTopicType: string := "/camera/image/compressed"

  class State {
    const name: string
    var value: Value
    var valueChanged: bool
    var notSingle: bool
    var hasData: bool
    var reading: bool

    constructor (name: string)
      ensures this.name == name && value == NoUpdate
      ensures !valueChanged && !notSingle && !hasData && !reading
    {
      this.name := name;
      value := NoUpdate;
      valueChanged := false;
      notSingle := false;
      hasData := false;
      reading := false;
    }

    /** Inbound message; dropped entirely while a read is in progress. */
    method Callback(message: Message)
      modifies this`hasData, this`notSingle, this`value, this`valueChanged
      ensures old(reading) ==> hasData == old(hasData) && notSingle == old(notSingle)
                               && value == old(value) && valueChanged == old(valueChanged)
      ensures !old(reading) ==>
                && hasData
                && notSingle == (old(notSingle) || "data" !in message)
                && value == Extract(message)
                && valueChanged == (old(valueChanged) || old(value) != Extract(message))
    {
      if reading {
        return;
      }
      hasData := true;
      var v: Value;
      if "data" in message {
        v := message["data"];
      } else {
        v := Dict(message);
        notSingle := true;
      }
      CheckValue(v);
    }

    method GetValue() returns (v: Value)
      modifies this`reading
      ensures v == value && !reading
    {
      reading := true;
      v := value;
      reading := false;
    }

    /** Replace the value and raise the flag, but only for a different value. */
    method CheckValue(v: Value)
      modifies this`value, this`valueChanged
      ensures value == v
      ensures valueChanged == (old(valueChanged) || old(value) != v)
      ensures old(value) == v ==> valueChanged == old(valueChanged)
    {
      if v != value {
        value := v;
        valueChanged := true;
      }
    }

    /** True exactly once per change. */
    method HasChanged() returns (r: bool)
      modifies this`valueChanged
      ensures r == old(valueChanged) && !valueChanged
    {
      if valueChanged {
        valueChanged := false;
        return true;
      }
      return false;
    }
  }

  /** The image handler's bookkeeping; decoding the image is not modelled. */
  class ImageHandler {
    const name: string
    var hasChanged: bool

    constructor (name: string)
      ensures this.name == name && !hasChanged
    {
      this.name := name;
      hasChanged := false;
    }
  }

  datatype Watcher = StateWatcher(state: State) | ImageWatcher(handler: ImageHandler)

  datatype Lookup = Found(watcher: Watcher) | KeyError(name: string)

  class RobotState {
    /** Names in first-insertion order. */
    var order: seq<string>
    var states: map<string, Watcher>

    ghost predicate Valid()
      reads this
    {
      && (forall i, j :: 0 <= i < j < |order| ==> order[i] != order[j])
      && (forall k :: k in states <==> k in order)
    }

    constructor ()
      ensures Valid() && order == [] && states == map[]
    {
      order := [];
      states := map[];
    }

    /**
     * Register a fresh watcher under `name`, replacing any earlier one: an
     * image handler for the compressed-image type, a `State` otherwise.
     */
    method AddWatcher(name: string, topicType: string) returns (w: Watcher)
      requires Valid()
      modifies this
      ensures Valid()
      ensures w.ImageWatcher? <==> topicType == ImageTopicType
      ensures w.StateWatcher? ==> fresh(w.state) && w.state.name == name && w.state.value == NoUpdate
                                  && !w.state.hasData && !w.state.valueChanged && !w.state.reading
      ensures w.ImageWatcher? ==> fresh(w.handler) && w.handler.name == name
      ensures states == old(states)[name := w]
      ensures order == if name in old(states) then old(order) else old(order) + [name]
    {
      var first := new State(name);  // subscribed by the source, then dropped
      if topicType == ImageTopicType {
        var h := new ImageHandler(name);
        w := ImageWatcher(h);
      } else {
        var s := new State(name);
        w := StateWatcher(s);
      }
      if name !in states {
        order := order + [name];
      }
      states := states[name := w];
    }

    /** `_states[name]`: the stored watcher, or a key error. */
    function State(name: string): (r: Lookup)
      reads this
      ensures r.Found? <==> name in states
      ensures r.Found? ==> r.watcher == states[name]
      ensures r.KeyError? ==> r.name == name
    {
      if name in states then Found(states[name]) else KeyError(name)
    }

    /** All watchers in registration order. */
    function States(): (r: seq<Watcher>)
      requires Valid()
      reads this
      ensures |r| == |order| && forall i :: 0 <= i < |order| ==> r[i] == states[order[i]]
    {
      var o, m := order, states;
      seq(|o|, i requires 0 <= i < |o| && o[i] in m => m[o[i]])
    }
  }

  /** After a change, the flag reads true once and then false. */
  method ChangeSeenOnce(s: State, message: Message) returns (first: bool, second: bool)
    requires !s.reading && !s.valueChanged && s.value != Extract(message)
    modifies s
    ensures first && !second
  {
    s.Callback(message);
    first := s.HasChanged();
    second := s.HasChanged();
  }

  /** A message equal to the cached value never raises the flag. */
  method RepeatIsNoChange(s: State, message: Message) returns (changed: bool)
    requires !s.reading
    modifies s
    ensures !changed
  {
    s.Callback(message);
    var _ := s.HasChanged();
    s.Callback(message);
    changed := s.HasChanged();
  }
}
