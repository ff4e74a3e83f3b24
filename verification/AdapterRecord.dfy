/** What the worker has recorded about its adapter, and what the adapter really is. */
module AdapterRecord {
  import opened Options
  import opened Messages
  import opened Coordinates
  import opened Detections
  import opened ServeSpec
  import opened Text

  /** A config and what the foreign code did about it. */
  datatype Load = Load(config: ConfigMessage, outcome: ConfigOutcome)

  /** The config that made the present adapter, and the one whose load made the present session. */
  datatype Past = Past(maker: Option<ConfigMessage>, serving: Option<Load>)

  ghost function SwapPast(p: Past, m: ConfigMessage, made: bool): Past {
    if p.maker.Some? && Runtime(p.maker.value) == Runtime(m) then p
    else if made then Past(Some(m), None)
    else Past(None, None)
  }

  ghost predicate SameRequest(a: ConfigMessage, b: ConfigMessage) {
    a.modelPath == b.modelPath && Device(a) == Device(b)
  }

  ghost function LoadPast(p: Past, m: ConfigMessage, o: ConfigOutcome): Past {
    if p.maker.None? || m.modelPath == "" then p
    else if p.serving.Some? && SameRequest(p.serving.value.config, m) then p
    else if o.loaded.Some? then p.(serving := Some(Load(m, o)))
    else p
  }

  /** What has become of the configs of a session, told without its state. */
  ghost function PastOf(events: seq<Event>): Past {
    if events == [] then Past(None, None)
    else
      var p := PastOf(events[..|events| - 1]);
      match events[|events| - 1]
      case ConfigEvent(m, o) => LoadPast(SwapPast(p, m, o.made), m, o)
      case _ => p
  }

  /** The adapter is that of the maker and runs the session of the serving load; and so says the record. */
  ghost predicate RecordAgrees(s: State, p: Past) {
    && (s.adapter.Some? <==> p.maker.Some?)
    && s.runtime == (if p.maker.Some? then Runtime(p.maker.value) else "")
    && (s.adapter.Some? ==>
          var a := s.adapter.value;
          && a.runtime == AdapterFor(s.runtime)
          && (a.input.Some? <==> p.serving.Some?)
          && (if p.serving.Some? then
                var m := p.serving.value.config;
                && a.input == p.serving.value.outcome.loaded
                && m.modelPath != "" && s.model == m.modelPath && s.device == Device(m) && a.asked == (s.model, s.device)
              else s.model == "" && s.device == ""))
    && (p.maker.None? ==> p.serving.None?)
  }

  lemma SwapKeepsRecord(s: State, p: Past, m: ConfigMessage, made: bool)
    requires RecordAgrees(s, p)
    ensures RecordAgrees(SwapAdapter(s, Runtime(m), made), SwapPast(p, m, made))
  {
    hide Runtime, Device, AdapterFor;
  }

  lemma LoadKeepsRecord(s: State, p: Past, m: ConfigMessage, o: ConfigOutcome)
    requires RecordAgrees(s, p)
    ensures RecordAgrees(LoadModel(s, m.modelPath, Device(m), o.loaded), LoadPast(p, m, o))
  {
    hide Runtime, Device, AdapterFor;
  }

  lemma ConfigKeepsRecord(table: map<string, nat>, s: State, p: Past, m: ConfigMessage, o: ConfigOutcome)
    requires RecordAgrees(s, p)
    ensures RecordAgrees(AfterConfig(table, s, m, o), LoadPast(SwapPast(p, m, o.made), m, o))
  {
    var s1 := Refiltered(table, s.(tracker := Some(TrackerAfterConfig(s.tracker, m))), m);
    assert RecordAgrees(s1, p) by {
      SettingsLeaveAdapter(table, s, m);
      hide Runtime, Device, AdapterFor, Refiltered;
    }
    hide RecordAgrees, SwapPast, LoadPast, SwapAdapter, LoadModel, Refiltered, Runtime, Device;
    SwapKeepsRecord(s1, p, m, o.made);
    LoadKeepsRecord(SwapAdapter(s1, Runtime(m), o.made), SwapPast(p, m, o.made), m, o);
  }

  lemma SettingsLeaveAdapter(table: map<string, nat>, s: State, m: ConfigMessage)
    ensures
      var s1 := Refiltered(table, s.(tracker := Some(TrackerAfterConfig(s.tracker, m))), m);
      s1.adapter == s.adapter && s1.runtime == s.runtime && s1.model == s.model && s1.device == s.device
  {
  }

  lemma FrameLeavesAdapter(inside: InsideTest, table: map<string, nat>, r: Session, e: Event)
    requires !e.ConfigEvent?
    ensures
      var s := Handle(inside, table, r, e).state;
      s.adapter == r.state.adapter && s.runtime == r.state.runtime && s.model == r.state.model && s.device == r.state.device
  {
    hide Sighted;
  }

  /** Over every session, failed swaps and failed loads included: the adapter in use is the one its maker asked for, the
      session in use is the one the serving load made, and the record names exactly those requests. */
  lemma {:induction false} RecordIsTrue(inside: InsideTest, table: map<string, nat>, events: seq<Event>)
    ensures RecordAgrees(Serve(inside, table, events).state, PastOf(events))
    decreases |events|
  {
    if events == [] {
    } else {
      var init, e := events[..|events| - 1], events[|events| - 1];
      var r := Serve(inside, table, init);
      RecordIsTrue(inside, table, init);
      assert Serve(inside, table, events) == Handle(inside, table, r, e);
      hide AfterConfig, Serve, LoadPast, SwapPast, Sighted;
      if e.ConfigEvent? {
        hide RecordAgrees;
        ConfigKeepsRecord(table, r.state, PastOf(init), e.config, e.outcome);
      } else {
        FrameLeavesAdapter(inside, table, r, e);
        hide Handle, Runtime, Device, AdapterFor;
      }
    }
  }

  /** A recorded runtime means an adapter, and the other way round, exactly when the adapter was not asked for under a
      name of blanks only. */
  lemma RuntimeIsRecorded(inside: InsideTest, table: map<string, nat>, events: seq<Event>)
    ensures
      var s, maker := Serve(inside, table, events).state, PastOf(events).maker;
      (s.adapter.Some? <==> s.runtime != "") <==>
      !(maker.Some? && maker.value.runtime != "" && AllBlank(maker.value.runtime))
  {
    RecordIsTrue(inside, table, events);
    var p := PastOf(events);
    hide Serve, PastOf, KeyOrElse;
    if p.maker.Some? {
      assert !IsBlank("onnx"[0]);
      BlankKey(p.maker.value.runtime, "onnx");
    }
  }

  /** The state runs what the config asks for. */
  ghost predicate Settled(s: State, m: ConfigMessage) {
    && s.adapter.Some? && s.adapter.value.runtime == AdapterFor(Runtime(m))
    && (m.modelPath != "" ==> s.adapter.value.input.Some? && s.adapter.value.asked == (m.modelPath, Device(m)))
  }

  /** A config sent again reaches for the foreign code exactly when the first time did not get what it asked for. */
  lemma RepeatedConfig(inside: InsideTest, table: map<string, nat>, events: seq<Event>, m: ConfigMessage, o: ConfigOutcome)
    ensures
      var s := AfterConfig(table, Serve(inside, table, events).state, m, o);
      (forall again: ConfigOutcome :: AfterConfig(table, s, m, again) == s) <==> Settled(s, m)
  {
    hide *;
    RecordIsTrue(inside, table, events);
    var s0 := Serve(inside, table, events).state;
    var s := AfterConfig(table, s0, m, o);
    ConfigKeepsRecord(table, s0, PastOf(events), m, o);
    RepeatKeepsSettings(table, s0, m, o);
    RuntimeAsAsked(table, s0, m, o);
    RepeatIff(table, s, LoadPast(SwapPast(PastOf(events), m, o.made), m, o), m);
  }

  lemma RuntimeAsAsked(table: map<string, nat>, s0: State, m: ConfigMessage, o: ConfigOutcome)
    ensures var s := AfterConfig(table, s0, m, o); s.adapter.Some? ==> s.runtime == Runtime(m)
  {
    hide Refiltered, TrackerAfterConfig, Runtime, Device, AdapterFor;
  }

  lemma RepeatIff(table: map<string, nat>, s: State, p: Past, m: ConfigMessage)
    requires RecordAgrees(s, p) && (s.adapter.Some? ==> s.runtime == Runtime(m))
    requires Refiltered(table, s.(tracker := Some(TrackerAfterConfig(s.tracker, m))), m) == s
    ensures (forall again: ConfigOutcome :: AfterConfig(table, s, m, again) == s) <==> Settled(s, m)
  {
    hide Refiltered, TrackerAfterConfig, Runtime, Device, AdapterFor;
    if !Settled(s, m) {
      var again := ConfigOutcome(true, Some(Input(1, 1, "cpu")));
      assert AfterConfig(table, s, m, again) != s;
    }
  }

  lemma RepeatKeepsSettings(table: map<string, nat>, s0: State, m: ConfigMessage, o: ConfigOutcome)
    ensures
      var s := AfterConfig(table, s0, m, o);
      Refiltered(table, s.(tracker := Some(TrackerAfterConfig(s.tracker, m))), m) == s
  {
    hide Runtime, Device, AdapterFor;
  }

  /** When the new model cannot be loaded, the runtime staying the same, the frames go on with the old one. */
  lemma FailedLoadKeepsServing(inside: InsideTest, table: map<string, nat>, events: seq<Event>, m: ConfigMessage, made: bool)
    ensures
      var s := Serve(inside, table, events).state;
      var s' := AfterConfig(table, s, m, ConfigOutcome(made, None));
      Ready(s') <==> Ready(s) && Runtime(m) == s.runtime
    ensures
      var s := Serve(inside, table, events).state;
      var s' := AfterConfig(table, s, m, ConfigOutcome(made, None));
      Ready(s') ==> s'.adapter == s.adapter
  {
    hide Serve, Refiltered, TrackerAfterConfig, Runtime, Device, AdapterFor;
    var s := Serve(inside, table, events).state;
    SettingsLeaveAdapter(table, s, m);
  }

  /** The recorded device is the one the session runs on. */
  ghost predicate DeviceAsRecorded(s: State) {
    Ready(s) ==> s.adapter.value.input.value.device == s.device
  }

  /** The load ended up on the device it was asked for. */
  ghost predicate LoadsAsAsked(load: Load) {
    load.outcome.loaded.Some? ==> load.outcome.loaded.value.device == Device(load.config)
  }

  /** Over every session the record gives the real device exactly when the load that made the present session kept its
      request; loads that failed, or whose session is gone, do not matter. */
  lemma DeviceIsReal(inside: InsideTest, table: map<string, nat>, events: seq<Event>)
    ensures
      var serving := PastOf(events).serving;
      DeviceAsRecorded(Serve(inside, table, events).state) <==> (serving.Some? ==> LoadsAsAsked(serving.value))
  {
    RecordIsTrue(inside, table, events);
    hide Serve, PastOf, Device, Runtime, AdapterFor;
  }

  /** For instance not when CUDA is asked for and the runtime falls back to the processor. */
  lemma FallbackIsNotRecorded(inside: InsideTest, table: map<string, nat>, m: ConfigMessage, mw: Positive, mh: Positive)
    requires m.device == "cuda" && m.modelPath != ""
    ensures !DeviceAsRecorded(Serve(inside, table, [ConfigEvent(m, ConfigOutcome(true, Some(Input(mw, mh, "cpu"))))]).state)
  {
    var o := ConfigOutcome(true, Some(Input(mw, mh, "cpu")));
    var events := [ConfigEvent(m, o)];
    DeviceIsReal(inside, table, events);
    assert PastOf(events[..0]) == Past(None, None);
    assert PastOf(events).serving == Some(Load(m, o));
    assert !IsBlank("cuda"[0]) && !IsBlank("cuda"[3]);
    assert Strip("cuda") == "cuda";
    assert |Device(m)| == |"cuda"| && |"cpu"| == 3;
    hide Serve, PastOf;
  }
}
