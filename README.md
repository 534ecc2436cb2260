# Driver-station topic cache, modelled in Dafny

This project models the topic cache at the core of the Pioneer driver station.
The cache subscribes to ROS topics through a rosbridge client. For each topic it
keeps the latest value, a change flag that reads true once, and the arrival
times of the last ten messages. Some topics can also be written back.

The model has six modules:

- `Values` (`values.dfy`) describes the values that arrive in bridge messages:
  null, booleans, numbers, strings, lists and records. It also gives the
  `{"data": v}` envelope and the rule for which value an inbound message
  carries.
- `SmartTopics` (`smart_topic.dfy`) covers `SmartTopic`, kept as a class with
  the source's fields. It has these operations:
  - the inbound handler, including its rolling window of arrival times;
  - the edge-triggered change read;
  - the guarded write-back, either as an envelope or as a shallow merge for
    `geometry_msgs/Twist`;
  - the rate estimate;
  - the status ladder and the staleness test;
  - the teardown, and pausing and resuming delivery;
  - the state effect of connecting.
- `TopicRegistry` (`registry.dfy`) is the registry of topics. It is an
  insertion-ordered dictionary keyed by display name. Lookup returns the first
  topic that matches either its display name or its wire name.
- `Cannon` (`cannon.dfy`) is the cannon object over five topics. It holds the
  state and action code tables and the command protocol. It also has the
  readings with their defaults and the all/any aggregates over the three
  read-back topics.
- `LegacyState` (`legacy_state.dfy`) is the earlier cache. It has one `State`
  per topic with a `reading` guard and a boolean change flag. Its registry
  raises a key error for a missing name.
- `Netsh` (`netsh.dfy`) is the parser for `netsh wlan show interfaces` output.
  It includes Python's `split`, `strip` and list filtering, and the dictionary
  that the loop builds.

How the model represents things the source leaves to Python, the transport or
the clock:

- **Time.** Time is a `now: real` parameter. The clock value that the inbound
  handler stores is also passed in.
- **Publishing.** Each `SmartTopic` has a sequence `published` of the messages
  it has published. A publish appends to it.
- **Subscription.** The transport's subscription is the boolean `subscribed`.
  A built listener is `hasListener`, and a built publisher is `hasPublisher`.
- **Client.** Whether a client is attached is `hasClient`. The client's own
  `is_connected` is a parameter of `GetStatus`.
- **Type lookup.** `client.get_topic_type` becomes the `resolved` argument
  of `Connect`.
- **Errors.** Python exceptions become error constructors in result datatypes:
  `WriteOutcome.Rejected`, `CommandOutcome.Failed`, `Lookup.KeyError` and
  `ListenerError`. A write that the source drops silently is `Ignored`.
- **Numbers.** Python ints and floats share one `Num(real)` constructor, so
  `0 == 0.0` holds as in Python.

The model keeps these behaviours of the code as written:

- The rate estimate is `len / (newest - oldest)`. This counts samples, not
  intervals, so ten messages one second apart give 1.11 Hz.
- Writing to a topic that does not exist returns silently instead of raising.
- Only the lazy type-resolution path marks a topic as existing. A topic whose
  type was supplied up front never becomes existing through `Connect`, so its
  writes are ignored (`SuppliedTypeStaysInert`).
- The inbound handler sets `not_single`, never `is_single`. So `is_single`
  stays true and only `geometry_msgs/Twist` topics merge their writes
  (`ScalarUnlessTwist`).
- Teardown does not clear the rate window.
- Teardown does not clear the resolved type either. A later connect therefore
  takes the supplied-type path, and a torn-down topic never becomes existing
  again (`TeardownLeavesInert`).

## Model

| member | source | states |
|---|---|---|
| Values.DataMessage | ROS/RobotState.py:148 | the scalar envelope has exactly the one key `data`, holding the written value |
| Values.Extract | ROS/RobotState.py:108-112 | the cached value of a message is its `data` field when it has one, and the whole record otherwise (also RobotState.py:46-50) |
| Values.ExtractEnvelope | ROS/RobotState.py:108-148 | a value written in the scalar envelope is exactly the value a receiving topic caches for it |
| SmartTopics.SmartTopic.constructor | ROS/RobotState.py:18-46 | a new topic records its names, type, write permission and client; it does not exist and has no data, no change, a null value, last update 0, an empty window, no listener or publisher, and nothing published |
| SmartTopics.SmartTopic.SetClient | ROS/RobotState.py:48-53 | afterwards the topic has a client exactly when one was handed over; handing over none leaves it without one |
| SmartTopics.SmartTopic.SetType | ROS/RobotState.py:55-56 | the type becomes the given one |
| SmartTopics.SmartTopic.Connect | ROS/RobotState.py:77-99 | a missing type is replaced by the resolved one; an empty resolution marks the topic not existing and builds nothing; otherwise existence is set only on the lazy path, the listener is built and subscribed, and a publisher exists exactly when writes are allowed or one existed; the invariant is kept |
| SmartTopics.SmartTopic.Update | ROS/RobotState.py:101-121 | has_data becomes true; the cached value becomes the message's `data` field if present, else the whole record; the change flag is raised exactly when that value differs, and an equal value leaves it alone; `not_single` records a record-valued message; the window gains `now`, drops its oldest entry past ten, never holds more than ten, and always equals the last ten of all arrival times |
| SmartTopics.SmartTopic.Stamp | ROS/RobotState.py:118-121 | the last-update time becomes `now`; the window gains `now`, drops its oldest entry past ten, never holds more than ten, and stays the last ten of all arrival times |
| SmartTopics.WindowSlides | ROS/RobotState.py:118-121 | appending one arrival time and dropping the oldest past capacity is the same as taking the last n of the extended history |
| SmartTopics.SmartTopic.HasChanged | ROS/RobotState.py:123-131 | returns the cached value when the flag was set and null otherwise; the flag is clear afterwards |
| SmartTopics.ConsumeTwice | ROS/RobotState.py:123-131 | of two change reads in a row, the second returns null |
| SmartTopics.SmartTopic.WriteEffect | ROS/RobotState.py:140-166 | writes are refused exactly when not allowed and ignored exactly when the topic does not exist; non-Twist topics publish the `{"data": v}` envelope; Twist topics publish the template's keys plus the update's, with the update's values winning and the template's values kept elsewhere; a non-record template or update is refused |
| SmartTopics.SmartTopic.SetValue | ROS/RobotState.py:140-166 | the outcome is the write effect; the outbox grows by exactly the published message, or stays unchanged; the cached value is untouched |
| SmartTopics.ScalarUnlessTwist | ROS/RobotState.py:140-148 | on an existing, writable, non-Twist topic, every write publishes the envelope, records included |
| SmartTopics.SuppliedTypeStaysInert | ROS/RobotState.py:77-99 | a writable topic whose type was supplied and which does not yet exist still ignores writes after connecting, and publishes nothing |
| SmartTopics.TeardownLeavesInert | ROS/RobotState.py:198-209 | after connecting by lookup, tearing down and connecting again, the topic keeps the first resolved type, does not exist, ignores writes and publishes nothing |
| SmartTopics.SmartTopic.UpdateRate | ROS/RobotState.py:168-176 | the rate is 0 exactly when there are fewer than two samples or the span is zero; otherwise rate times span equals the number of samples |
| SmartTopics.RoundHalfEven | ROS/RobotState.py:184 | the result is within one half of its argument, and ties go to the even neighbour |
| SmartTopics.Status.Label | ROS/RobotState.py:184-196 | a healthy status prints as its rate followed by `Hz: OK`; every other status prints as one of the six fixed words |
| SmartTopics.LabelInjective | ROS/RobotState.py:184-196 | two statuses with the same text are the same status, rates included |
| SmartTopics.Status.Colour | ROS/RobotState.py:178-196 | green exactly for a healthy status, dark orange exactly for STALE and UNSUBED, red otherwise |
| SmartTopics.SmartTopic.GetStatus | ROS/RobotState.py:178-196 | each of the seven statuses holds exactly when its branch of the ladder is taken, in the source's order of checks; a healthy status carries the rounded rate |
| SmartTopics.SmartTopic.IsStale | ROS/RobotState.py:217-221 | stale exactly when at least five seconds have passed since the last update |
| SmartTopics.HealthyIsFresh | ROS/RobotState.py:217-221 | a healthy status means the topic is not stale, and STALE means it is |
| SmartTopics.SmartTopic.Unsub | ROS/RobotState.py:198-209 | afterwards the topic is unsubscribed and not existing, with no data, a null value, no change and last update 0; names, type, permission and window are outside its frame |
| SmartTopics.SmartTopic.Unsubscribe | ROS/RobotState.py:211-212 | without a listener it fails and changes nothing; otherwise delivery is paused |
| SmartTopics.SmartTopic.Resubscribe | ROS/RobotState.py:214-215 | without a listener it fails and changes nothing; otherwise delivery resumes |
| TopicRegistry.RobotState.constructor | ROS/RobotState.py:437-438 | the registry starts empty |
| TopicRegistry.RobotState.AddWatcher | ROS/RobotState.py:450-451 | the topic is stored under its display name, replacing any earlier one; a new name is appended to the order and a reused name keeps its place |
| TopicRegistry.RobotState.States | ROS/RobotState.py:459-460 | the stored topics in registration order, each filed under its own display name |
| TopicRegistry.RobotState.State | ROS/RobotState.py:453-457 | null exactly when no topic matches by display or wire name; otherwise the first match in registration order |
| TopicRegistry.AddThenFind | ROS/RobotState.py:450-457 | a newly named topic that no earlier topic answers to is found by its display name after registration |
| Cannon.Code | ROS/RobotState.py:405-407 | there is no code exactly when no entry has the name; otherwise the code belongs to an entry with that name |
| Cannon.CodeInverts | ROS/RobotState.py:400 | with distinct names, each entry's name looks up its own code |
| Cannon.NameOf | ROS/RobotState.py:417 | there is no name exactly when no entry has the code; otherwise it is the name of the first entry with that code |
| Cannon.NameOfInverts | ROS/RobotState.py:417 | with distinct codes, each entry's code looks up its own name |
| Cannon.EnumsAreDistinct | ROS/RobotState.py:351-372 | both tables have distinct names and distinct codes |
| Cannon.StateName | ROS/RobotState.py:412-417 | "No data" exactly for null; an unknown state exactly when the value is not one of the state codes, carrying that value; otherwise the name of the entry with that code |
| Cannon.StateNameRoundTrip | ROS/RobotState.py:412-417 | every state code reads back as its own name |
| Cannon.AnyStaleMeansSome | ROS/RobotState.py:422-426 | the early-exit scan is true exactly when some topic is stale |
| Cannon.AllHaveDataMeansEvery | ROS/RobotState.py:428-432 | the early-exit scan is true exactly when every topic has data |
| Cannon.NumericWrite | ROS/RobotState.py:140-148 | on an existing topic, a number is published as its envelope when the topic is writable and not Twist; otherwise every number is refused in the same way |
| Cannon.CannonCombinedTopic.constructor | ROS/RobotState.py:374-381 | the five topics are stored |
| Cannon.CannonCombinedTopic.SetPressure | ROS/RobotState.py:383-387 | the set-point topic publishes what the write effect says; a refusal is swallowed |
| Cannon.CannonCombinedTopic.GetPressure | ROS/RobotState.py:389-393 | the reading once data arrived, 0 before |
| Cannon.CannonCombinedTopic.GetState | ROS/RobotState.py:412-417 | "No data" exactly when the state value is null; an unknown state carries the value; every state code reads as its own name |
| Cannon.CannonCombinedTopic.GetAuto | ROS/RobotState.py:419-420 | the flag once data arrived, false before |
| Cannon.CannonCombinedTopic.IsStale | ROS/RobotState.py:422-426 | stale exactly when the pressure, state or auto topic is stale |
| Cannon.CannonCombinedTopic.HasData | ROS/RobotState.py:428-432 | true exactly when all three read-back topics have data |
| Cannon.CannonCombinedTopic.SendCommand | ROS/RobotState.py:395-410 | refused when the command topic is missing, when its value is neither null nor 0, or when the action is unknown; from a null value it publishes clear, code, clear, or only the first clear before failing on an unknown action; from 0 it publishes the code and then four clears; a refused write is reported; nothing else is published |
| LegacyState.State.constructor | RobotState.py:33-40 | a new state holds "No update", with no change, no record, no data and no read in progress |
| LegacyState.State.Callback | RobotState.py:42-51 | while a read is in progress nothing changes; otherwise has_data becomes true, the value becomes the `data` field or the whole record, a record sets `not_single`, and the flag is raised exactly when the value differs |
| LegacyState.State.GetValue | RobotState.py:53-57 | returns the value and leaves no read in progress |
| LegacyState.State.CheckValue | RobotState.py:59-62 | the value becomes the argument; the flag is raised exactly when it differs, and is left alone otherwise |
| LegacyState.State.HasChanged | RobotState.py:64-68 | returns the flag and clears it |
| LegacyState.ChangeSeenOnce | RobotState.py:59-68 | after one change the flag reads true once, then false |
| LegacyState.RepeatIsNoChange | RobotState.py:42-68 | delivering a message equal to the cached value does not raise the flag |
| LegacyState.ImageHandler.constructor | RobotState.py:14-19 | a new image handler has its name and no change |
| LegacyState.RobotState.constructor | RobotState.py:79-80 | the registry starts empty |
| LegacyState.RobotState.AddWatcher | RobotState.py:82-92 | stores a fresh image handler for the compressed-image type and a fresh `State` otherwise, under the name, replacing any earlier entry and keeping first-insertion order |
| LegacyState.RobotState.State | RobotState.py:94-95 | the stored entry when the name is present, a key error naming it otherwise |
| LegacyState.RobotState.States | RobotState.py:97-98 | all stored entries in registration order |
| Netsh.StripSpec | QT5_Classes/SignalUI.py:28 | the result is a middle slice that is cut only through whitespace and neither starts nor ends with whitespace |
| Netsh.SplitJoin | QT5_Classes/SignalUI.py:19 | joining the pieces of a split with the separator gives back the text |
| Netsh.SplitPiecesFree | QT5_Classes/SignalUI.py:19 | no piece of a split contains the separator |
| Netsh.SplitCharCount | QT5_Classes/SignalUI.py:25 | splitting on one character gives one piece more than the character occurs |
| Netsh.NonEmptyMembers | QT5_Classes/SignalUI.py:21 | the kept lines are exactly the non-empty ones, and there are no more of them than lines |
| Netsh.NonEmptySingle | QT5_Classes/SignalUI.py:21 | a single line is kept exactly when it is non-empty |
| Netsh.NonEmptyAppend | QT5_Classes/SignalUI.py:21 | filtering a concatenation is concatenating the filtered parts, so order and repeats are kept |
| Netsh.DecodeNetshOutput | QT5_Classes/SignalUI.py:17-32 | the loop builds the dictionary that inserting each line's key and optional value in turn gives |
| Netsh.InfoKeys | QT5_Classes/SignalUI.py:24-30 | a key is in the dictionary exactly when some line has it |
| Netsh.NetshKeys | QT5_Classes/SignalUI.py:19-30 | the keys are exactly those of the non-empty lines after the first CRLF-separated line |
| Netsh.KeyBeforeFirstColon | QT5_Classes/SignalUI.py:25-30 | a key is the stripped text before the line's first colon, or the stripped line when it has none |
| Netsh.FieldOneColon | QT5_Classes/SignalUI.py:26-30 | a line has a value exactly when it has exactly one colon, and the value is the stripped text after it |
| Netsh.InfoLastWins | QT5_Classes/SignalUI.py:26-30 | each key's value comes from the last line that has that key |
| Netsh.NoLineBreakNoInfo | QT5_Classes/SignalUI.py:19 | output without a CRLF gives an empty dictionary |
| Netsh.HeaderIgnored | QT5_Classes/SignalUI.py:19 | whatever precedes the first CRLF contributes nothing |

## Left out

- Threads and locks. `threading.Lock`, the daemon threads and the `run_in_thread` ready callbacks are not modelled. Every operation runs to completion on its own, and mutual exclusion is not part of the model.
- The roslibpy transport. Building `roslibpy.Topic` objects, `subscribe`, `unsubscribe`, `unadvertise`, `publish` and `client.on_ready` are not modelled. They appear only as the booleans `hasListener`, `subscribed` and `hasPublisher` and the `published` sequence.
- The client's type lookup. It appears only as the `resolved` argument of `Connect`.
- SmartTopics.SmartTopic.Connect: requires a client when the type must be resolved. The source's `AttributeError` for a missing client is not modelled, because `connect` runs only from the client's ready callback.
- `_topic_type_callback` and `_recheck_exists` (ROS/RobotState.py:58-75) are left out. The recheck returns before doing anything, and nothing registers the callback.
- The `time.sleep(0.05)` between clears in `send_command` is timing only.
- Floating point. Numbers are exact reals, so the rate and the freshness threshold use exact division and comparison.
- SmartTopics.SmartTopic.GetStatus: returns a status value with its label and colour, not the formatted string pair. `Status.Label` gives the text.
- Python's `True == 1` and `False == 0` are not modelled. Booleans are distinct from numbers, so a boolean state value reads as unknown.
- SmartTopics.SmartTopic.WriteEffect: treats a record template from a dictionary only. Building a `roslibpy.Message` from a list of pairs, or any other iterable, is refused as `TemplateNotRecord`.
- Keyword options that change no modelled state are not modelled: `throttle_rate`, `queue_size`, `auto_reconnect`, `hidden` and `compression`.
- Legacy image decoding is not modelled. `ImageHandler.handle_image` (RobotState.py:21-27) and its base64 and PIL decoding are left out. Only the handler's construction is kept.
- LegacyState.RobotState.AddWatcher: the first `State` it builds and subscribes (RobotState.py:83-84) is allocated and dropped. The model does not record the subscription that keeps it alive in the source.
- Logging calls (for example ROS/RobotState.py:83 and 387) are left out; they change no modelled state.
- The UTF-8 decode at QT5_Classes/SignalUI.py:18 is left out. `DecodeNetshOutput` takes the decoded text.
- Netsh.Strip: Unicode whitespace is Python's `str.isspace` set, written out as code points. Unicode normalisation is not modelled.
- The bridge connection monitor, the Qt widgets and the launch scripts (ROS/ROSInterface.py, ROSInterface.py, QT5_Classes/*, main.py and others) are not part of this model.
