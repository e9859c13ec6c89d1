/** Concrete runs that reach the two windows, on a ring of one byte. */
module Witnesses {
  import opened Words
  import opened Protocol
  import opened Invariant
  import opened Safety
  import opened EndOfStream

  function Fresh(): World {
    World(Machine(1, Shared(0, 0, 0, [0]), Writer(0, 0, false, WIdle), Reader(0, 0, RIdle), false),
          History(0, 0, 0, 0, 0, 0, [], [], [], false))
  }

  function WriterTo(w: World, pc: WriterPc): World {
    w.(m := w.m.(w := w.m.w.(pc := pc)))
  }

  function ReaderTo(w: World, pc: ReaderPc): World {
    w.(m := w.m.(r := w.m.r.(pc := pc)))
  }

  /** A read on the empty, open ring, up to its closed load. */
  function Loaded(block: bool): World {
    ReaderTo(Fresh(), RLoadClosed(1, block))
  }

  lemma LoadTail(block: bool) returns (ws: seq<World>, acts: seq<Action>)
    ensures IsRun(ws, acts) && acts == [RBegin(1, block), RGo, RGo]
    ensures ws[3] == Loaded(block) && LoadsTail(ws[2], acts[2])
  {
    var w0 := Fresh();
    var w1 := ReaderTo(w0, RTop(1, block));
    var w2 := ReaderTo(w0, RLoad(1, block));
    assert Step(w0, RBegin(1, block)) == w1;
    assert Step(w1, RGo) == w2;
    assert Step(w2, RGo) == Loaded(block);
    ws, acts := [w0, w1, w2, Loaded(block)], [RBegin(1, block), RGo, RGo];
  }

  /** One byte copied in but not yet published. */
  function Filled(w: World): World {
    var w := w.(m := w.m.(sh := w.m.sh.(data := [7])), h := w.h.(log := [7]));
    WriterTo(w, WCopy([7], 0, false, 1, 1))
  }

  function Sent(w: World): World {
    var w := Filled(w);
    var w := w.(m := w.m.(sh := w.m.sh.(tail := 1), w := w.m.w.(tail := 1)),
                h := w.h.(tail := 1, pubTail := 1));
    WriterTo(w, WWake([7], 1, false))
  }

  lemma CopyOneByte(w: World)
    requires w == WriterTo(Loaded(false), WCopy([7], 0, false, 1, 0))
    ensures Step(w, WGo) == Filled(Loaded(false))
  {
    assert BitAnd(0, 0) == 0;
    assert w.m.sh.data[0 := 7] == [7];
    assert w.h.log + [7] == [7];
  }

  lemma BeginWrite(ws: seq<World>, acts: seq<Action>) returns (ws': seq<World>, acts': seq<Action>)
    requires IsRun(ws, acts) && ws[|acts|] == Loaded(false)
    ensures IsRun(ws', acts') && ws <= ws' && acts' == acts + [WBegin([7], false), WGo]
    ensures ws'[|acts'|] == WriterTo(Loaded(false), WCopy([7], 0, false, 1, 0))
  {
    var w4 := WriterTo(Loaded(false), WTop([7], 0, false));
    var w5 := WriterTo(Loaded(false), WCopy([7], 0, false, 1, 0));
    Extend(ws, acts, WBegin([7], false), w4);
    Extend(ws + [w4], acts + [WBegin([7], false)], WGo, w5);
    ws', acts' := ws + [w4] + [w5], acts + [WBegin([7], false)] + [WGo];
  }

  lemma FillByte(ws: seq<World>, acts: seq<Action>) returns (ws': seq<World>, acts': seq<Action>)
    requires IsRun(ws, acts) && ws[|acts|] == Loaded(false)
    ensures IsRun(ws', acts') && ws <= ws' && acts' == acts + [WBegin([7], false), WGo, WGo]
    ensures ws'[|acts'|] == Filled(Loaded(false))
  {
    var ws1, acts1 := BeginWrite(ws, acts);
    var w := ws1[|acts1|];
    CopyOneByte(w);
    Extend(ws1, acts1, WGo, Step(w, WGo));
    ws', acts' := ws1 + [Step(w, WGo)], acts1 + [WGo];
  }

  lemma SendByte(ws: seq<World>, acts: seq<Action>) returns (ws': seq<World>, acts': seq<Action>)
    requires IsRun(ws, acts) && ws[|acts|] == Filled(Loaded(false))
    ensures IsRun(ws', acts') && ws <= ws' && acts' == acts + [WGo, WGo]
    ensures ws'[|acts'|] == Sent(Loaded(false))
  {
    var w := Filled(Loaded(false));
    var w7 := WriterTo(w.(m := w.m.(w := w.m.w.(tail := 1)), h := w.h.(tail := 1)), WStore([7], 0, false, 1));
    Extend(ws, acts, WGo, w7);
    Extend(ws + [w7], acts + [WGo], WGo, Sent(Loaded(false)));
    ws' := ws + [w7] + [Sent(Loaded(false))];
    acts' := acts + [WGo] + [WGo];
  }

  function Closing(w: World): World {
    w.(m := w.m.(sh := w.m.sh.(closed := 1), w := w.m.w.(closed := true, pc := WCloseFlagWake)))
  }

  lemma RaiseFlag(ws: seq<World>, acts: seq<Action>) returns (ws': seq<World>, acts': seq<Action>)
    requires IsRun(ws, acts) && ws[|acts|].m.w.pc.WIdle? && !ws[|acts|].m.w.closed
    ensures IsRun(ws', acts') && ws <= ws' && acts' == acts + [WClose, WGo]
    ensures ws'[|acts'|] == Closing(ws[|acts|])
  {
    var w := ws[|acts|];
    var w1 := w.(m := w.m.(w := w.m.w.(closed := true, pc := WCloseFlag)));
    assert w.h.calls + [] == w.h.calls;
    Extend(ws, acts, WClose, w1);
    Extend(ws + [w1], acts + [WClose], WGo, Closing(w));
    ws' := ws + [w1] + [Closing(w)];
    acts' := acts + [WClose] + [WGo];
  }

  /** A write and a Close land between a read's two loads: the read returns EOF although one byte
      has been published and not delivered. */
  lemma EofCanComeEarly() returns (ws: seq<World>, acts: seq<Action>)
    ensures EofCall(ws, acts, 2, 11)
    ensures ws[11].h.got == [] && Published(ws[11]) == [7]
  {
    var ws0, acts0 := LoadTail(false);
    var ws1, acts1 := FillByte(ws0, acts0);
    var ws2, acts2 := SendByte(ws1, acts1);
    var w := ws2[|acts2|];
    var w9 := Step(w, WGo);
    Extend(ws2, acts2, WGo, w9);
    var ws3, acts3 := RaiseFlag(ws2 + [w9], acts2 + [WGo]);
    Extend(ws3, acts3, RGo, Step(ws3[11], RGo));
    ws, acts := ws3 + [Step(ws3[11], RGo)], acts3 + [RGo];
    assert ws[2] == ws0[2] && ws[11] == ws3[11];
  }

  function Waiting(): World {
    ReaderTo(Fresh(), RWait(1))
  }

  lemma CloseWhileWaiting() returns (ws: seq<World>, acts: seq<Action>)
    ensures IsRun(ws, acts) && |acts| == 9
    ensures ws[8] == WriterTo(Closing(Waiting()), WCloseWake) && acts[8] == WGo
    ensures ws[9] == WriterTo(Closing(Waiting()), WIdle)
  {
    var ws0, acts0 := LoadTail(true);
    Extend(ws0, acts0, RGo, Waiting());
    var ws1, acts1 := RaiseFlag(ws0 + [Waiting()], acts0 + [RGo]);
    var w7 := WriterTo(Closing(Waiting()), WCloseTail);
    var w8 := WriterTo(Closing(Waiting()), WCloseWake);
    var w9 := WriterTo(Closing(Waiting()), WIdle);
    Extend(ws1, acts1, WGo, w7);
    Extend(ws1 + [w7], acts1 + [WGo], WGo, w8);
    Extend(ws1 + [w7] + [w8], acts1 + [WGo] + [WGo], WGo, w9);
    ws, acts := ws1 + [w7] + [w8] + [w9], acts1 + [WGo] + [WGo] + [WGo];
  }

  /** A whole Close lands between a read's closed load and its Wait: the Reader parks on a drained,
      closed ring, and neither side has a step left that could wake it. */
  lemma CloseCanBeMissed() returns (ws: seq<World>, acts: seq<Action>)
    ensures IsRun(ws, acts) && |acts| == 10
    ensures ws[8].m.w.pc.WCloseWake? && acts[8].WGo? && AboutToPark(ws[8])
    ensures AsleepForGood(ws[10]) && Drained(ws[10]) && !Enabled(ws[10].m, WGo) && !Enabled(ws[10].m, RGo)
  {
    var ws0, acts0 := CloseWhileWaiting();
    var w10 := ReaderTo(ws0[9], RParked(1));
    Extend(ws0, acts0, RGo, w10);
    ws, acts := ws0 + [w10], acts0 + [RGo];
    RunKeeps(ws, acts, 10);
    assert ws[10] == w10;
  }
}
