/**
 * One message-bus topic as the driver station tracks it: whether the bridge
 * knows the topic, the latest value received, an edge-triggered change flag,
 * the arrival times of the last ten messages, and an optional write-back path
 * that publishes to the same topic.
 *
 * Time is an explicit parameter `now` (seconds, as a real), the transport's
 * subscription is the boolean `subscribed`, and every message the topic
 * publishes is appended to the sequence `published`.
 */
module SmartTopics {
  import opened Values

  /** How many arrival times the rate estimate looks at. */
  const WindowSize: nat := 10

  /** Data older than this many seconds is stale. */
  const FreshnessSeconds: real := 5.0

  /** The one message type whose writes are merged rather than wrapped. */
  const TwistType: string := "geometry_msgs/Twist"

  /** The last `n` elements of `s`, or all of `s` when it is shorter. */
  function LastN(s: seq<real>, n: nat): seq<real>
  {
    if |s| <= n then s else s[|s| - n..]
  }

  /**
   * Appending a timestamp to the full history moves the window the way the
   * inbound handler does: append, then drop the oldest entry past capacity.
   */
  lemma {:induction false} WindowSlides(history: seq<real>, t: real, n: nat)
    requires n > 0
    ensures var w := LastN(history, n) + [t];
            LastN(history + [t], n) == if |w| > n then w[1..] else w
  {
    var w := LastN(history, n) + [t];
    var h := history + [t];
    if |history| < n {
      assert LastN(h, n) == h;
    } else {
      assert |LastN(history, n)| == n;
      assert LastN(history, n) == history[|history| - n..];
      assert w[1..] == history[|history| - n + 1..] + [t];
      assert LastN(h, n) == h[|h| - n..];
      assert h[|h| - n..] == history[|history| - n + 1..] + [t];
    }
  }

  /** What one slide of a window of at most ten entries looks like. */
  lemma WindowFacts(w: seq<real>, t: real)
    requires |w| <= WindowSize
    ensures var w' := if |w + [t]| > WindowSize then (w + [t])[1..] else w + [t];
            && |w'| <= WindowSize && w'[|w'| - 1] == t
            && w' == if |w| < WindowSize then w + [t] else w[1..] + [t]
  {
  }

  /** Python's `round` on a number: to the nearest integer, ties to even. */
  function RoundHalfEven(x: real): (r: int)
    ensures x - 0.5 <= r as real <= x + 0.5
    ensures (r as real - x == 0.5 || x - r as real == 0.5) ==> r % 2 == 0
  {
    var f := x.Floor;
    var d := x - f as real;
    if d < 0.5 then f
    else if d > 0.5 then f + 1
    else if f % 2 == 0 then f
    else f + 1
  }

  /** Decimal rendering of an integer, as Python's f-string prints it. */
  function IntToString(n: int): string
  {
    if n < 0 then "-" + NatToString(-n) else NatToString(n)
  }

  function NatToString(n: nat): (r: string)
    ensures |r| >= 1 && (n < 10 <==> |r| == 1)
    ensures forall i :: 0 <= i < |r| ==> '0' <= r[i] <= '9'
    decreases n
  {
    var d := ('0' as int + n % 10) as char;
    if n < 10 then [d] else NatToString(n / 10) + [d]
  }

  /** Different numbers print differently. */
  lemma {:induction false} NatToStringInjective(a: nat, b: nat)
    requires NatToString(a) == NatToString(b)
    ensures a == b
    decreases a
  {
    var r := NatToString(a);
    assert r[|r| - 1] == ('0' as int + a % 10) as char == ('0' as int + b % 10) as char;
    if a >= 10 {
      assert |NatToString(b)| > 1;
      assert NatToString(a / 10) == r[..|r| - 1] == NatToString(b / 10);
      NatToStringInjective(a / 10, b / 10);
    }
  }

  /** A printed integer starts with a minus sign exactly when it is negative. */
  lemma IntToStringSign(n: int)
    ensures |IntToString(n)| >= 1 && (IntToString(n)[0] == '-' <==> n < 0)
  {
    if n >= 0 {
      assert '0' <= NatToString(n)[0] <= '9';
    }
  }

  lemma IntToStringInjective(a: int, b: int)
    requires IntToString(a) == IntToString(b)
    ensures a == b
  {
    var r := IntToString(a);
    IntToStringSign(a);
    IntToStringSign(b);
    if a < 0 {
      assert NatToString(-a) == r[1..] == NatToString(-b);
      NatToStringInjective(-a, -b);
    } else {
      NatToStringInjective(a, b);
    }
  }

  datatype Colour = Green | DarkOrange | Red

  /** The health classification shown for a topic. */
  datatype Status =
    | Healthy(hz: int)
    | Stale
    | Unsubscribed
    | NoData
    | NoClient
    | NoConnection
    | Missing
  {
    function Label(): (l: string)
      ensures Healthy? ==> |l| > 6 && l[|l| - 6..] == "Hz: OK"
      ensures !Healthy? ==> l in {"STALE", "UNSUBED", "NO DATA", "NO CLIENT", "NO CONN", "MISSING"}
    {
      match this
      case Healthy(hz) => IntToString(hz) + "Hz: OK"
      case Stale => "STALE"
      case Unsubscribed => "UNSUBED"
      case NoData => "NO DATA"
      case NoClient => "NO CLIENT"
      case NoConnection => "NO CONN"
      case Missing => "MISSING"
    }

    function Colour(): (c: Colour)
      ensures c == Green <==> Healthy?
      ensures c == DarkOrange <==> Stale? || Unsubscribed?
    {
      match this
      case Healthy(_) => Green
      case Stale => DarkOrange
      case Unsubscribed => DarkOrange
      case _ => Red
    }
  }

  /** The status text tells every status apart, including the rounded rates. */
  lemma LabelInjective(s: Status, t: Status)
    requires s.Label() == t.Label()
    ensures s == t
  {
    var l := s.Label();
    if s.Healthy? && t.Healthy? {
      assert IntToString(s.hz) == l[..|l| - 6] == IntToString(t.hz);
      IntToStringInjective(s.hz, t.hz);
    }
  }

  /** Why a write to a topic raised instead of publishing. */
  datatype WriteError =
    | NotAllowed          // the topic was built without `allow_update`
    | TemplateNotRecord   // the cached value cannot seed a message record
    | UpdateNotRecord     // a merge write was given something other than a record

  /** What one write through the `value` setter does. */
  datatype WriteOutcome =
    | Published(msg: Message)
    | Ignored
    | Rejected(error: WriteError)

  /** Why `unsubscribe` / `resubscribe` failed: the topic never connected. */
  datatype ListenerError = NoListener

  class SmartTopic {
    const dispName: string
    const topicName: string
    const allowUpdate: bool
    /** Always true: the handler records multi-field messages in `notSingle` instead. */
    const isSingle: bool := true

    var topicType: Option<string>
    var hasClient: bool
    var topicExists: bool
    var hasData: bool
    /** Absent in the source until a multi-field message arrives; false here. */
    var notSingle: bool
    /** The edge-triggered change flag (`_has_changed`). */
    var changed: bool
    var value: Value
    var lastUpdate: real
    var updateInterval: seq<real>
    var hasListener: bool
    var subscribed: bool
    var hasPublisher: bool
    var published: seq<Message>

    /** Every arrival time ever recorded, oldest first. */
    ghost var history: seq<real>

    ghost predicate Valid()
      reads this
    {
      && updateInterval == LastN(history, WindowSize)
      && (subscribed ==> hasListener)
      && (topicExists ==> hasListener && (allowUpdate ==> hasPublisher))
    }

    constructor (dispName: string, topicName: string, topicType: Option<string>,
                 allowUpdate: bool, hasClient: bool)
      ensures Valid()
      ensures this.dispName == dispName && this.topicName == topicName
      ensures this.topicType == topicType && this.allowUpdate == allowUpdate
      ensures this.hasClient == hasClient
      ensures !topicExists && !hasData && !notSingle && !changed
      ensures value == Null && lastUpdate == 0.0 && updateInterval == [] && history == []
      ensures !hasListener && !subscribed && !hasPublisher && published == []
    {
      this.dispName := dispName;
      this.topicName := topicName;
      this.topicType := topicType;
      this.allowUpdate := allowUpdate;
      this.hasClient := hasClient;
      topicExists := false;
      hasData := false;
      notSingle := false;
      changed := false;
      value := Null;
      lastUpdate := 0.0;
      updateInterval := [];
      history := [];
      hasListener := false;
      subscribed := false;
      hasPublisher := false;
      published := [];
    }

    /**
     * Hands the topic a bridge client, or none; a present client will call
     * `Connect` once ready. Handing over no client leaves the topic without
     * one (the failed ready registration is logged and swallowed).
     */
    method SetClient(present: bool)
      modifies this`hasClient
      ensures hasClient == present
    {
      hasClient := present;
    }

    method SetType(t: string)
      modifies this`topicType
      ensures topicType == Some(t)
    {
      topicType := Some(t);
    }

    /**
     * The state effect of connecting. `resolved` is what the client reports
     * as the topic's type; it is consulted only when no type was supplied.
     * An empty answer leaves the topic inert with that empty type recorded.
     * Only the lazy-resolution path marks the topic as existing.
     */
    method Connect(resolved: string)
      requires Valid()
      requires topicType.None? ==> hasClient
      modifies this`topicType, this`topicExists, this`hasListener, this`subscribed, this`hasPublisher
      ensures Valid()
      ensures topicType == if old(topicType).None? then Some(resolved) else old(topicType)
      ensures old(topicType).None? && resolved == "" ==>
                !topicExists && hasListener == old(hasListener) && subscribed == old(subscribed)
                && hasPublisher == old(hasPublisher)
      ensures !(old(topicType).None? && resolved == "") ==>
                && topicExists == (old(topicType).None? || old(topicExists))
                && hasListener && subscribed
                && hasPublisher == (allowUpdate || old(hasPublisher))
    {
      if topicType.None? {
        topicType := Some(resolved);
        if resolved == "" {
          topicExists := false;
          return;
        }
        topicExists := true;
      }
      hasListener := true;
      subscribed := true;
      if allowUpdate {
        hasPublisher := true;
      }
    }

    /**
     * An inbound message: record that data arrived, replace the cached value
     * and raise the change flag only if the extracted value differs, then
     * push the arrival time into the rolling window.
     */
    method Update(message: Message, now: real)
      requires Valid()
      modifies this`hasData, this`notSingle, this`value, this`changed, this`lastUpdate,
               this`updateInterval, this`history
      ensures Valid()
      ensures hasData
      ensures value == Extract(message)
      ensures notSingle == (old(notSingle) || "data" !in message)
      ensures changed == (old(changed) || old(value) != Extract(message))
      ensures old(value) == Extract(message) ==> changed == old(changed)
      ensures lastUpdate == now && history == old(history) + [now]
      ensures |updateInterval| <= WindowSize && updateInterval[|updateInterval| - 1] == now
      ensures updateInterval == if |old(updateInterval)| < WindowSize
                                then old(updateInterval) + [now]
                                else old(updateInterval)[1..] + [now]
    {
      hasData := true;
      var v: Value;
      if "data" in message {
        v := message["data"];
      } else {
        v := Dict(message);
        notSingle := true;
      }
      if value != v {
        value := v;
        changed := true;
      }
      Stamp(now);
    }

    /** The second half of the inbound handler: record `now` and slide the window. */
    method Stamp(now: real)
      requires Valid()
      modifies this`lastUpdate, this`updateInterval, this`history
      ensures Valid()
      ensures lastUpdate == now && history == old(history) + [now]
      ensures |updateInterval| <= WindowSize && updateInterval[|updateInterval| - 1] == now
      ensures updateInterval == if |old(updateInterval)| < WindowSize
                                then old(updateInterval) + [now]
                                else old(updateInterval)[1..] + [now]
    {
      WindowSlides(history, now, WindowSize);
      WindowFacts(updateInterval, now);
      lastUpdate := now;
      updateInterval := updateInterval + [lastUpdate];
      if |updateInterval| > WindowSize {
        updateInterval := updateInterval[1..];
      }
      history := history + [now];
    }

    /** Edge-triggered read: the value if it changed since the last call, else null. */
    method HasChanged() returns (r: Value)
      modifies this`changed
      ensures r == if old(changed) then value else Null
      ensures !changed
    {
      if changed {
        changed := false;
        return value;
      }
      return Null;
    }

    /**
     * The record a merge write starts from: the cached value when data has
     * arrived (null builds an empty record), an empty record otherwise.
     */
    function Template(): Option<Message>
      reads this`hasData, this`value
    {
      if !hasData then Some(map[])
      else match value
        case Null => Some(map[])
        case Dict(m) => Some(m)
        case _ => None
    }

    /** What writing `update` through the `value` setter does. */
    function WriteEffect(update: Value): (r: WriteOutcome)
      reads this`topicExists, this`topicType, this`hasData, this`value
      ensures !allowUpdate <==> r == Rejected(NotAllowed)
      ensures allowUpdate && !topicExists <==> r == Ignored
      ensures allowUpdate && topicExists && topicType != Some(TwistType) ==>
                r == Published(DataMessage(update))
      ensures allowUpdate && topicExists && topicType == Some(TwistType) ==>
                match Template()
                case None => r == Rejected(TemplateNotRecord)
                case Some(base) =>
                  if update.Dict? then
                    && r.Published?
                    && r.msg.Keys == base.Keys + update.fields.Keys
                    && (forall k :: k in update.fields ==> r.msg[k] == update.fields[k])
                    && (forall k :: k in base && k !in update.fields ==> r.msg[k] == base[k])
                  else r == Rejected(UpdateNotRecord)
    {
      if !allowUpdate then Rejected(NotAllowed)
      else if !topicExists then Ignored
      else if isSingle && topicType != Some(TwistType) then Published(DataMessage(update))
      else match Template()
        case None => Rejected(TemplateNotRecord)
        case Some(base) =>
          if update.Dict? then Published(base + update.fields)
          else Rejected(UpdateNotRecord)
    }

    /**
     * The `value` setter: publish what `WriteEffect` says, or nothing. The
     * cached value is never touched.
     */
    method SetValue(update: Value) returns (r: WriteOutcome)
      modifies this`published
      ensures r == WriteEffect(update)
      ensures published == if r.Published? then old(published) + [r.msg] else old(published)
    {
      if !allowUpdate {
        return Rejected(NotAllowed);
      }
      if !topicExists {
        return Ignored;
      }
      var msg: Message;
      if isSingle && topicType != Some(TwistType) {
        msg := DataMessage(update);
      } else {
        var template := Template();
        if template.None? {
          return Rejected(TemplateNotRecord);
        }
        if !update.Dict? {
          return Rejected(UpdateNotRecord);
        }
        msg := template.value;
        var keys := update.fields.Keys;
        while keys != {}
          invariant keys <= update.fields.Keys
          invariant msg.Keys == template.value.Keys + (update.fields.Keys - keys)
          invariant forall k :: k in update.fields && k !in keys ==> msg[k] == update.fields[k]
          invariant forall k :: k in msg && (k !in update.fields || k in keys) ==> msg[k] == template.value[k]
          decreases keys
        {
          var k :| k in keys;
          msg := msg[k := update.fields[k]];
          keys := keys - {k};
        }
        assert msg == template.value + update.fields;
      }
      published := published + [msg];
      r := Published(msg);
    }

    /** Estimated inbound rate in Hz over the window; 0 when it cannot be estimated. */
    function UpdateRate(): (rate: real)
      reads this`updateInterval
      ensures rate == 0.0 <==>
                |updateInterval| <= 1 || updateInterval[|updateInterval| - 1] == updateInterval[0]
      ensures rate != 0.0 ==>
                rate * (updateInterval[|updateInterval| - 1] - updateInterval[0]) == |updateInterval| as real
    {
      if |updateInterval| > 1 then
        var span := updateInterval[|updateInterval| - 1] - updateInterval[0];
        if span == 0.0 then 0.0
        else 1.0 / (span / |updateInterval| as real)
      else 0.0
    }

    /** No message within the freshness threshold before `now`. */
    predicate IsStale(now: real)
      reads this`lastUpdate
      ensures IsStale(now) <==> now - lastUpdate >= FreshnessSeconds
    {
      !(lastUpdate > now - FreshnessSeconds)
    }

    /**
     * The health ladder. `clientConnected` is the client's own report of
     * whether its connection is up; it matters only for a topic that does
     * not exist.
     */
    function GetStatus(now: real, clientConnected: bool): (s: Status)
      requires Valid()
      reads this
      ensures s.Healthy? <==> topicExists && hasData && subscribed && !IsStale(now)
      ensures s.Healthy? ==> s.hz == RoundHalfEven(UpdateRate())
      ensures s == Stale <==> topicExists && hasData && subscribed && IsStale(now)
      ensures s == Unsubscribed <==> topicExists && hasData && !subscribed
      ensures s == NoData <==> topicExists && !hasData
      ensures s == NoClient <==> !topicExists && !hasClient
      ensures s == NoConnection <==> !topicExists && hasClient && !clientConnected
      ensures s == Missing <==> !topicExists && hasClient && clientConnected
    {
      if topicExists then
        if hasData then
          if subscribed then
            if lastUpdate > now - FreshnessSeconds then Healthy(RoundHalfEven(UpdateRate()))
            else Stale
          else Unsubscribed
        else NoData
      else if !hasClient then NoClient
      else if !clientConnected then NoConnection
      else Missing
    }

    /**
     * Teardown on session loss: stop listening and reset the cached state.
     * The names, type, write permission and rate window survive.
     */
    method Unsub()
      requires Valid()
      modifies this`subscribed, this`topicExists, this`hasData, this`value, this`changed,
               this`lastUpdate
      ensures Valid()
      ensures !subscribed && !topicExists && !hasData && value == Null && !changed
      ensures lastUpdate == 0.0
    {
      if hasListener {
        subscribed := false;
      }
      topicExists := false;
      hasData := false;
      value := Null;
      changed := false;
      lastUpdate := 0.0;
    }

    /** Pause delivery; fails when the topic never built a listener. */
    method Unsubscribe() returns (r: Option<ListenerError>)
      requires Valid()
      modifies this`subscribed
      ensures Valid()
      ensures r == if old(hasListener) then None else Some(NoListener)
      ensures subscribed == (old(subscribed) && !hasListener)
    {
      if !hasListener {
        return Some(NoListener);
      }
      subscribed := false;
      return None;
    }

    /** Resume delivery; fails when the topic never built a listener. */
    method Resubscribe() returns (r: Option<ListenerError>)
      requires Valid()
      modifies this`subscribed
      ensures Valid()
      ensures r == if old(hasListener) then None else Some(NoListener)
      ensures subscribed == (old(subscribed) || hasListener)
    {
      if !hasListener {
        return Some(NoListener);
      }
      subscribed := true;
      return None;
    }
  }

  /** Two edge-triggered reads in a row: the second reports no change. */
  method ConsumeTwice(t: SmartTopic) returns (first: Value, second: Value)
    modifies t`changed
    ensures first == if old(t.changed) then t.value else Null
    ensures second == Null && !t.changed
  {
    first := t.HasChanged();
    second := t.HasChanged();
  }

  /** A healthy status implies the topic is not stale, and vice versa for STALE. */
  lemma HealthyIsFresh(t: SmartTopic, now: real, clientConnected: bool)
    requires t.Valid()
    ensures t.GetStatus(now, clientConnected).Healthy? ==> !t.IsStale(now)
    ensures t.GetStatus(now, clientConnected) == Stale ==> t.IsStale(now)
  {
  }

  /**
   * With `isSingle` always true, a write publishes the `{"data": v}`
   * envelope on every existing, writable topic whose type is not Twist, even
   * when the cached value is a record.
   */
  lemma ScalarUnlessTwist(t: SmartTopic, update: Value)
    requires t.allowUpdate && t.topicExists && t.topicType != Some(TwistType)
    ensures t.WriteEffect(update) == Published(map["data" := update])
  {
  }

  /**
   * A topic whose type was supplied up front never becomes existing through
   * `Connect`, so its writes are silently ignored.
   */
  method SuppliedTypeStaysInert(t: SmartTopic, resolved: string, update: Value)
    returns (r: WriteOutcome)
    requires t.Valid() && t.topicType.Some? && !t.topicExists && t.allowUpdate
    modifies t
    ensures r == Ignored && t.published == old(t.published)
  {
    t.Connect(resolved);
    r := t.SetValue(update);
  }

  /**
   * Teardown leaves the resolved type in place, so a later connect takes the
   * supplied-type path and the topic never becomes existing again: its
   * writes are ignored from then on.
   */
  method TeardownLeavesInert(t: SmartTopic, first: string, later: string, update: Value)
    returns (r: WriteOutcome)
    requires t.Valid() && t.topicType.None? && t.hasClient && t.allowUpdate && first != ""
    modifies t
    ensures r == Ignored && !t.topicExists && t.topicType == Some(first)
    ensures t.published == old(t.published)
  {
    t.Connect(first);
    t.Unsub();
    t.Connect(later);
    r := t.SetValue(update);
  }
}
