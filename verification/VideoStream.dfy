/** VideoCapture: when to reset, when to send a full frame, a difference or a JPEG. */
module VideoStream {
  import opened VideoCodec

  const JPEG_PERIOD := 100
  const JPEG_TABLE := 4
  const WORD := 0x1_0000_0000     // framecount is an unsigned long of 32 bits

  /** VIDEO_ENGINE_INFO: the settings in force, and what else the client may change. */
  datatype Info = Info(settings: Settings, visualLossless: nat, jpegFile: nat, vqMode: nat, differentialSetting: nat)

  /** The client's answer to a frame: the settings it wants from now on. */
  datatype Reply = Reply(yTable: nat, mode420: nat, vqMode: nat, differentialSetting: nat)

  /** What one call meets: the screen, the engine's report, the client's reply,
      and the state the engine is left in by a reset, about which nothing is known. */
  datatype Input = Input(screen: Frame, modeChange: bool, totalSize: nat, reply: Reply, afterReset: Engine)

  datatype State = State(pendingReset: bool, count: nat, full: bool, info: Info, engine: Engine)

  function AspeedConfig(info: Info): Config {
    Config(Aspeed, info.settings, info.visualLossless)
  }

  function JpegConfig(info: Info): Config {
    Config(Jpeg, Settings(JPEG_TABLE, info.settings.mode420, 0), 0)
  }

  function Reset(s: State, engine: Engine): State {
    State(false, 0, true, s.info, engine)
  }

  predicate Changes(info: Info, r: Reply) {
    info.settings.yTable != r.yTable || info.settings.mode420 != r.mode420
    || info.vqMode != r.vqMode || info.differentialSetting != r.differentialSetting
  }

  function Adopt(info: Info, r: Reply): Info {
    info.(settings := Settings(r.yTable, r.mode420, info.settings.rc4), vqMode := r.vqMode,
          differentialSetting := r.differentialSetting)
  }

  /** A changed setting is taken over at once and forces a reset on the next call. */
  function AfterReply(s: State, r: Reply): State {
    if Changes(s.info, r) then s.(pendingReset := true, info := Adopt(s.info, r)) else s
  }

  function NextCount(s: State): nat {
    (s.count + 1) % WORD
  }

  predicate JpegDue(s: State) {
    s.info.jpegFile != 0 && NextCount(s) % JPEG_PERIOD == 0
  }

  /** The call resets the engine, at its start or after the engine reported trouble, and sends nothing. */
  predicate Resets(s: State, i: Input) {
    s.pendingReset || i.modeChange || (!JpegDue(s) && i.totalSize == 0)
  }

  /** The state and the transfer after one call of VideoCapture. */
  function Step(s: State, i: Input): (State, Transfer) {
    if Resets(s, i) then (Reset(s, i.afterReset), NoTransfer)
    else if JpegDue(s) then
      var engine := s.engine.(config := JpegConfig(s.info)).Trigger(i.screen);
      (AfterReply(s.(count := NextCount(s), full := true, engine := engine), i.reply), JpegTransfer(i.screen))
    else
      var engine := if s.full then s.engine.(config := AspeedConfig(s.info)) else s.engine;
      (AfterReply(s.(count := NextCount(s), full := false, engine := engine.Trigger(i.screen)), i.reply),
       AspeedTransfer(s.full, s.info.settings, engine.config, engine.Encode(!s.full, i.screen)))
  }

  // ----- The program -----

  class VideoServer {
    var videoStatus: nat
    var framecount: nat
    var firstframe: nat
    var info: Info
    var engine: Engine

    ghost predicate Valid()
      reads this
    {
      videoStatus <= 1 && firstframe <= 1 && framecount < WORD
    }

    ghost function Abs(): State
      reads this
    {
      State(videoStatus == 1, framecount, firstframe == 1, info, engine)
    }

    /** main: the globals start at zero and Video_Status is raised before the first call. */
    constructor (info: Info, engine: Engine)
      ensures Valid() && Abs() == State(true, 0, false, info, engine)
    {
      videoStatus, framecount, firstframe := 1, 0, 0;
      this.info, this.engine := info, engine;
    }

    /** The branch at label init taken when Video_Status is 1. */
    method Init(afterReset: Engine)
      requires Valid()
      modifies this
      ensures Valid() && Abs() == Reset(old(Abs()), afterReset)
    {
      framecount := 0;
      firstframe := 1;
      engine := afterReset;
      videoStatus := 0;
    }

    /** ast_video_auto_mode_trigger */
    method Trigger(differential: bool, i: Input) returns (image: Image, modeChange: nat)
      modifies this`engine
      ensures engine == old(engine).Trigger(i.screen) && image == old(engine).Encode(differential, i.screen)
      ensures modeChange == if i.modeChange then 1 else 0
    {
      image := engine.Encode(differential, i.screen);
      engine := engine.Trigger(i.screen);
      modeChange := if i.modeChange then 1 else 0;
    }

    method VideoCapture(i: Input) returns (t: Transfer)
      requires Valid()
      modifies this
      ensures Valid() && (Abs(), t) == Step(old(Abs()), i)
    {
      t := NoTransfer;
      if videoStatus == 1 {
        Init(i.afterReset);
        return;
      }
      framecount := (framecount + 1) % WORD;
      var jpegEncode := false;
      if info.jpegFile != 0 {
        if framecount % JPEG_PERIOD == 0 {
          jpegEncode := true;
        }
      }
      var image;
      if jpegEncode {
        engine := engine.(config := JpegConfig(info));
        image, videoStatus := Trigger(false, i);
        if videoStatus != 0 {
          Init(i.afterReset);
          return;
        }
        t := JpegTransfer(i.screen);
        firstframe := 1;
      } else {
        if firstframe != 0 {
          engine := engine.(config := AspeedConfig(info));
        }
        image, videoStatus := Trigger(firstframe == 0, i);
        if videoStatus != 0 {
          Init(i.afterReset);
          return;
        }
        if i.totalSize == 0 {
          videoStatus := 1;
          Init(i.afterReset);
          return;
        }
        t := AspeedTransfer(firstframe != 0, info.settings, engine.config, image);
        firstframe := 0;
      }
      CheckClient(i.reply);
    }

    /** The client's reply is compared with the settings in force. */
    method CheckClient(r: Reply)
      requires Valid()
      modifies this`videoStatus, this`info
      ensures Valid() && Abs() == AfterReply(old(Abs()), r)
    {
      if info.settings.yTable != r.yTable || info.settings.mode420 != r.mode420
         || info.vqMode != r.vqMode || info.differentialSetting != r.differentialSetting {
        videoStatus := 1;
        info := info.(settings := Settings(r.yTable, r.mode420, info.settings.rc4), vqMode := r.vqMode,
                      differentialSetting := r.differentialSetting);
      }
    }
  }

  // ----- Whole runs -----

  /** Server and client together. */
  datatype World = World(s: State, client: Picture)

  function Play(w: World, i: Input): World {
    var (s, t) := Step(w.s, i);
    World(s, Decode(w.client, t))
  }

  function Run(w: World, ins: seq<Input>): World {
    if ins == [] then w else Play(Run(w, ins[..|ins| - 1]), ins[|ins| - 1])
  }

  function Started(info: Info, engine: Engine, client: Picture): World {
    World(State(true, 0, false, info, engine), client)
  }

  /** Whenever the next frame may be a difference, the client shows the engine's reference,
      and the engine is configured for what the next header will announce. */
  predicate InStep(w: World) {
    !w.s.pendingReset && !w.s.full ==>
      w.s.engine.config == AspeedConfig(w.s.info) && w.client == Showing(w.s.engine.reference, w.s.info.settings)
  }

  lemma PlayInStep(w: World, i: Input)
    requires InStep(w)
    ensures InStep(Play(w, i))
  {
    OverlayDiff(w.s.engine.reference, i.screen);
  }

  lemma {:induction false} RunInStep(w: World, ins: seq<Input>)
    requires InStep(w)
    ensures InStep(Run(w, ins))
  {
    if ins != [] {
      RunInStep(w, ins[..|ins| - 1]);
      PlayInStep(Run(w, ins[..|ins| - 1]), ins[|ins| - 1]);
    }
  }

  /** The stream shows the screen.  In every run, each ASPEED frame leaves the client with exactly the captured screen;
      each difference meets a client that shows the engine's reference under the same settings;
      and every frame is encoded as its header announces. */
  lemma {:induction false} ClientSeesScreen(info: Info, engine: Engine, client: Picture, ins: seq<Input>, i: Input)
    ensures var w := Run(Started(info, engine, client), ins);
      var t := Step(w.s, i).1;
      t.AspeedTransfer? ==>
        && Play(w, i).client == Showing(i.screen, t.announced)
        && t.encoded.format == Aspeed && t.encoded.settings == t.announced
        && (t.image.Delta? ==> w.client == Showing(w.s.engine.reference, t.announced))
        && t.firstFrame == t.image.Full?
  {
    var w := Run(Started(info, engine, client), ins);
    RunInStep(Started(info, engine, client), ins);
    OverlayDiff(w.s.engine.reference, i.screen);
  }

  predicate NoReset(w: World, ins: seq<Input>) {
    forall k :: 0 <= k < |ins| ==> !Resets(Run(w, ins[..k]).s, ins[k])
  }

  predicate Sends(w: World, ins: seq<Input>, k: nat)
    requires k < |ins|
  {
    Step(Run(w, ins[..k]).s, ins[k]).1.AspeedTransfer?
  }

  lemma StepCounts(s: State, i: Input, n: nat)
    requires !Resets(s, i) && s.count == n % WORD
    ensures Step(s, i).0.count == (n + 1) % WORD
  {
    WrapSucc(n);
  }

  lemma JpegAt(s: State, i: Input, n: nat)
    requires !s.pendingReset && s.count == n % WORD
    ensures Step(s, i).1.JpegTransfer?
       <==> s.info.jpegFile != 0 && (n + 1) % WORD % JPEG_PERIOD == 0 && !i.modeChange
  {
    WrapSucc(n);
    assert NextCount(s) == (n + 1) % WORD;
    assert Step(s, i).1.JpegTransfer? <==> JpegDue(s) && !i.modeChange;
  }

  /** Between resets the counter counts the calls. */
  lemma {:induction false} CountsCalls(w: World, ins: seq<Input>)
    requires w.s.count == 0 && NoReset(w, ins)
    ensures Run(w, ins).s.count == |ins| % WORD
  {
    if ins != [] {
      var init := ins[..|ins| - 1];
      assert forall k :: 0 <= k < |init| ==> init[..k] == ins[..k];
      CountsCalls(w, init);
      assert !Resets(Run(w, init).s, ins[|ins| - 1]);
      StepCounts(Run(w, init).s, ins[|ins| - 1], |init|);
    }
  }

  /** JPEGs go out exactly at the calls whose number since the reset is a multiple of the period
      (counted in 32 bits), unless the engine reports a mode change, and only if they are asked for. */
  lemma JpegSchedule(w: World, ins: seq<Input>, i: Input)
    requires w.s.count == 0 && NoReset(w, ins) && !Run(w, ins).s.pendingReset
    ensures Step(Run(w, ins).s, i).1.JpegTransfer?
       <==> Run(w, ins).s.info.jpegFile != 0 && (|ins| + 1) % 0x1_0000_0000 % 100 == 0 && !i.modeChange
  {
    CountsCalls(w, ins);
    JpegAt(Run(w, ins).s, i, |ins|);
  }

  lemma WrapSucc(n: nat)
    ensures (n % WORD + 1) % WORD == (n + 1) % WORD
  {}

  /** The frame after a JPEG, or after a reset, is a full one, however many calls later it comes. */
  lemma {:induction false} FullFrameNext(w: World, ins: seq<Input>, i: Input)
    requires w.s.full || w.s.pendingReset
    requires forall k :: 0 <= k < |ins| ==> !Sends(w, ins, k)
    ensures Run(w, ins).s.full || Run(w, ins).s.pendingReset
    ensures var t := Step(Run(w, ins).s, i).1; t.AspeedTransfer? ==> t.image == Full(i.screen) && t.firstFrame
  {
    if ins != [] {
      var init := ins[..|ins| - 1];
      forall k | 0 <= k < |init| ensures !Sends(w, init, k) {
        assert init[..k] == ins[..k];
        assert !Sends(w, ins, k);
      }
      FullFrameNext(w, init, ins[|ins| - 1]);
      assert !Sends(w, ins, |ins| - 1);
    }
  }

  /** After a JPEG was sent, the next ASPEED frame is full. */
  lemma FullFrameAfterJpeg(w: World, j: Input, ins: seq<Input>, i: Input)
    requires Step(w.s, j).1.JpegTransfer?
    requires forall k :: 0 <= k < |ins| ==> !Sends(Play(w, j), ins, k)
    ensures var t := Step(Run(Play(w, j), ins).s, i).1; t.AspeedTransfer? ==> t.image == Full(i.screen) && t.firstFrame
  {
    FullFrameNext(Play(w, j), ins, i);
  }

  // ----- What a reply does -----

  /** A call that sends something ends with the client's four settings in force and everything else as before.  It
      leaves a reset to be done exactly when one of the four was not in force already. */
  lemma ReplyTakenOver(s: State, i: Input)
    requires Step(s, i).1 != NoTransfer
    ensures var t, r := Step(s, i).0, i.reply;
      && t.info.settings.yTable == r.yTable && t.info.settings.mode420 == r.mode420
      && t.info.vqMode == r.vqMode && t.info.differentialSetting == r.differentialSetting
      && t.info.settings.rc4 == s.info.settings.rc4 && t.info.jpegFile == s.info.jpegFile
      && t.info.visualLossless == s.info.visualLossless
      && (t.pendingReset <==> s.info.settings.yTable != r.yTable || s.info.settings.mode420 != r.mode420
                              || s.info.vqMode != r.vqMode || s.info.differentialSetting != r.differentialSetting)
  {}

  /** A call that sends nothing starts the count again, asks for a full frame and changes no setting. */
  lemma SilentCallResets(s: State, i: Input)
    requires Step(s, i).1 == NoTransfer
    ensures Step(s, i).0 == State(false, 0, true, s.info, i.afterReset)
  {}

  /** The calls of a run that send nothing. */
  predicate Silent(w: World, ins: seq<Input>) {
    forall k :: 0 <= k < |ins| ==> Step(Run(w, ins[..k]).s, ins[k]).1 == NoTransfer
  }

  lemma {:induction false} SilentKeepsInfo(w: World, ins: seq<Input>)
    requires Silent(w, ins)
    ensures Run(w, ins).s.info == w.s.info
  {
    if ins != [] {
      var init := ins[..|ins| - 1];
      forall k | 0 <= k < |init| ensures Step(Run(w, init[..k]).s, init[k]).1 == NoTransfer {
        assert init[..k] == ins[..k];
      }
      SilentKeepsInfo(w, init);
      assert Step(Run(w, init).s, ins[|ins| - 1]).1 == NoTransfer;
    }
  }

  /** The next ASPEED frame after a reply is announced and encoded as the client asked for in it, however many resets
      come in between. */
  lemma NextFrameAsAsked(w: World, i: Input, ins: seq<Input>, j: Input)
    requires InStep(w) && Step(w.s, i).1 != NoTransfer && Silent(Play(w, i), ins)
    ensures var t := Step(Run(Play(w, i), ins).s, j).1;
      var asked := Settings(i.reply.yTable, i.reply.mode420, w.s.info.settings.rc4);
      t.AspeedTransfer? ==> t.announced == asked && t.encoded == Config(Aspeed, asked, w.s.info.visualLossless)
  {
    ReplyTakenOver(w.s, i);
    SilentKeepsInfo(Play(w, i), ins);
    PlayInStep(w, i);
    RunInStep(Play(w, i), ins);
  }

  /** A client that keeps asking for the same is left alone: its next reply forces no reset. */
  lemma SameReplySettles(w: World, i: Input, ins: seq<Input>, j: Input)
    requires Step(w.s, i).1 != NoTransfer && Silent(Play(w, i), ins)
    requires Step(Run(Play(w, i), ins).s, j).1 != NoTransfer && j.reply == i.reply
    ensures !Step(Run(Play(w, i), ins).s, j).0.pendingReset
  {
    ReplyTakenOver(w.s, i);
    SilentKeepsInfo(Play(w, i), ins);
    ReplyTakenOver(Run(Play(w, i), ins).s, j);
  }

  /** An ASPEED frame goes out exactly when nothing calls for a reset and it is not a JPEG's turn. */
  lemma AspeedSchedule(s: State, i: Input)
    ensures Step(s, i).1.AspeedTransfer?
       <==> && !s.pendingReset && !i.modeChange && i.totalSize != 0
            && !(s.info.jpegFile != 0 && (s.count + 1) % 0x1_0000_0000 % 100 == 0)
  {}

  /** A JPEG is made with Y table 4, without RC4 and visual losslessness, in the 4:2:0 mode in force. */
  lemma JpegSettings(s: State, i: Input)
    requires Step(s, i).1.JpegTransfer?
    ensures Step(s, i).1.frame == i.screen
    ensures Step(s, i).0.engine == Engine(i.screen, Config(Jpeg, Settings(4, s.info.settings.mode420, 0), 0))
  {}

  // ----- Why the full frame is needed -----

  /** The same world without the demand for a full frame; the engine is reconfigured all the same, so that only the
      picture a difference is taken against can be wrong. */
  function Skipping(w: World): World {
    w.(s := w.s.(full := false, engine := w.s.engine.(config := AspeedConfig(w.s.info))))
  }

  /** The next call sends an ASPEED frame. */
  predicate SendsNext(s: State, i: Input) {
    !Resets(s, i) && !JpegDue(s)
  }

  predicate Restored(w: World, i: Input) {
    Play(w, i).client == Showing(i.screen, w.s.info.settings)
  }

  /** A client that shows all of the reference: its own blocks, and 0 where it has none. */
  predicate Covers(shown: Frame, reference: Frame) {
    forall k :: 0 <= k < |reference| ==> (if k < |shown| then shown[k] else 0) == reference[k]
  }

  /** A difference would restore a given screen exactly when the client already has right what the screen shares
      with the engine's reference. */
  lemma DifferenceRestores(w: World, i: Input, frame: Frame)
    requires w.client == Showing(frame, w.s.info.settings) && SendsNext(Skipping(w).s, i)
    ensures Restored(Skipping(w), i)
       <==> forall k :: 0 <= k < |i.screen| && k < |w.s.engine.reference| && w.s.engine.reference[k] == i.screen[k] ==>
              (if k < |frame| then frame[k] else 0) == i.screen[k]
  {
    OverlayElsewhere(frame, w.s.engine.reference, i.screen);
  }

  /** It would restore every screen exactly when the client shows all of the reference: only then could a full frame be
      spared. */
  lemma FullFrameNeeded(w: World, frame: Frame)
    requires w.client == Showing(frame, w.s.info.settings) && !w.s.pendingReset && !JpegDue(w.s)
    ensures (forall i :: SendsNext(Skipping(w).s, i) ==> Restored(Skipping(w), i))
       <==> Covers(frame, w.s.engine.reference)
  {
    var screen := w.s.engine.reference;
    var still := Input(screen, false, 1, Reply(0, 0, 0, 0), w.s.engine);
    assert SendsNext(Skipping(w).s, still);
    DifferenceRestores(w, still, frame);
    forall i | Covers(frame, screen) && SendsNext(Skipping(w).s, i) ensures Restored(Skipping(w), i) {
      DifferenceRestores(w, i, frame);
    }
  }

  /** After a JPEG the next count is not one for a JPEG again. */
  lemma NoJpegTwice(s: State, j: Input)
    requires Step(s, j).1.JpegTransfer?
    ensures !JpegDue(Step(s, j).0)
  {
    var n := NextCount(s);
    assert n % JPEG_PERIOD == 0 && n < WORD;
    NotDueAfter(n);
  }

  lemma NotDueAfter(n: nat)
    requires n % JPEG_PERIOD == 0 && n < WORD
    ensures (n + 1) % WORD % JPEG_PERIOD == 1
  {
    assert WORD == 42949672 * JPEG_PERIOD + 96;
    assert n + 1 < WORD;
  }

  /** So the full frame after a JPEG cannot be spared.  The JPEG's trigger made its own screen the reference while the
      client still shows the ASPEED frame before it: a difference is right for every screen exactly when the JPEG's
      screen shows nothing new. */
  lemma JpegNeedsFullFrame(w: World, j: Input)
    requires InStep(w) && !w.s.pendingReset && !w.s.full
    requires Step(w.s, j).1.JpegTransfer? && !Changes(w.s.info, j.reply)
    ensures var after := Play(w, j);
      (forall i :: SendsNext(Skipping(after).s, i) ==> Restored(Skipping(after), i))
      <==> Covers(w.s.engine.reference, j.screen)
  {
    NoJpegTwice(w.s, j);
    FullFrameNeeded(Play(w, j), w.s.engine.reference);
  }

  /** Without reconfiguration it would not even be readable: the engine is still set up for JPEG. */
  lemma UnconfiguredIsGarbage(w: World, j: Input, i: Input)
    requires Step(w.s, j).1.JpegTransfer?
    ensures var after := Play(w, j); var hasty := after.(s := after.s.(full := false));
      SendsNext(hasty.s, i) ==> Play(hasty, i).client == Garbage
  {}

  /** Nor the one after a reset, whatever picture the reset left in the engine: a client that shows something under the
      settings in force can do without it exactly when that covers the engine's new reference. */
  lemma ResetNeedsFullFrame(w: World, r: Input, frame: Frame)
    requires Resets(w.s, r) && w.client == Showing(frame, w.s.info.settings)
    ensures var after := Play(w, r);
      (forall i :: SendsNext(Skipping(after).s, i) ==> Restored(Skipping(after), i))
      <==> Covers(frame, r.afterReset.reference)
  {
    assert !JpegDue(Play(w, r).s);
    FullFrameNeeded(Play(w, r), frame);
  }
}
