/**
 The choice of a graphics mode: one pass over the firmware's modes, keeping the best so far.
 */
module Gop {
  import opened CIntegers

  datatype PixelFormat = RedGreenBlue | BlueGreenRed | BitMask | BltOnly

  datatype ModeInfo = ModeInfo(width: nat, height: nat, pixelsPerScanLine: nat, format: PixelFormat)

  datatype FramebufferInfo = FramebufferInfo(width: nat, height: nat, bytesPerRow: nat, isRgb: bool)

  /** A mode as `QueryMode` reports it; the query of a mode may fail. */
  datatype Query = Failed | Info(info: ModeInfo)

  /** The graphics output protocol: the current mode, the answers to the queries, and whether
      setting a mode works. */
  datatype Protocol = Protocol(currentInfo: ModeInfo, currentMode: nat, modes: seq<Query>, setWorks: bool)

  /** Resolutions are 32-bit unsigned, deviations 32-bit signed. */
  const MAX_RESOLUTION: nat := 0x4000_0000

  function Abs(x: int): nat {
    if x < 0 then -x else x
  }

  /** The deviation as the code computes it, component by component with 32-bit wrap-around. */
  function Deviation(pw: int, ph: int, m: ModeInfo): nat {
    Abs(ToInt32(ToInt32(pw - m.width) + ToInt32(ph - m.height)))
  }

  /** What it amounts to. */
  function Distance(pw: int, ph: int, m: ModeInfo): nat {
    var d := (pw + ph) - (m.width + m.height);
    if d < 0 then -d else d
  }

  predicate Moderate(m: ModeInfo) {
    m.width <= MAX_RESOLUTION && m.height <= MAX_RESOLUTION
  }

  predicate ModeratePreference(pw: int, ph: int) {
    0 <= pw <= MAX_RESOLUTION && 0 <= ph <= MAX_RESOLUTION
  }

  /** Up to 2^30 nothing wraps, except that the sum of the two components may reach 2^31. */
  lemma DeviationIsDistance(pw: int, ph: int, m: ModeInfo)
    requires ModeratePreference(pw, ph) && Moderate(m)
    ensures Deviation(pw, ph, m) == Distance(pw, ph, m)
  {
    FitsInt32(pw - m.width);
    FitsInt32(ph - m.height);
    var sum := (pw - m.width) + (ph - m.height);
    if sum < 0x8000_0000 {
      FitsInt32(sum);
    } else {
      assert sum == 0x8000_0000;
    }
  }

  /** The sum of the signed deviations is no distance between resolutions: a mode has deviation
      zero exactly when its half perimeter fits, whatever its shape. */
  lemma DeviationIsBlindToShape(pw: int, ph: int, m: ModeInfo)
    requires ModeratePreference(pw, ph) && Moderate(m)
    ensures Deviation(pw, ph, m) == 0 <==> m.width + m.height == pw + ph
    ensures Deviation(1920, 1080, ModeInfo(1080, 1920, 1080, RedGreenBlue)) == 0
  {
    DeviationIsDistance(pw, ph, m);
    DeviationIsDistance(1920, 1080, ModeInfo(1080, 1920, 1080, RedGreenBlue));
  }

  /** Only modes that can be queried and have a 32-bit RGB or BGR format are candidates. */
  predicate Candidate(q: Query) {
    q.Info? && (q.info.format.BlueGreenRed? || q.info.format.RedGreenBlue?)
  }

  /** The mode a choice stands for: -1 keeps the current mode. */
  function Chosen(gop: Protocol, choice: int): ModeInfo
    requires -1 <= choice < |gop.modes| && (0 <= choice ==> gop.modes[choice].Info?)
  {
    if choice < 0 then gop.currentInfo else gop.modes[choice].info
  }

  /** The promised choice among the current mode and the first `n` modes: least distance, the
      current mode on ties, otherwise the lowest index. */
  ghost predicate BestAmong(gop: Protocol, pw: int, ph: int, n: nat, choice: int)
    requires n <= |gop.modes|
  {
    && -1 <= choice < n
    && (0 <= choice ==> Candidate(gop.modes[choice]))
    && (0 <= choice ==> Distance(pw, ph, gop.modes[choice].info) < Distance(pw, ph, gop.currentInfo))
    && (forall i :: 0 <= i < n && Candidate(gop.modes[i]) ==>
          Distance(pw, ph, Chosen(gop, choice)) <= Distance(pw, ph, gop.modes[i].info))
    && (forall i :: 0 <= i < choice && Candidate(gop.modes[i]) ==>
          Distance(pw, ph, Chosen(gop, choice)) < Distance(pw, ph, gop.modes[i].info))
  }

  /** There is only one such choice. */
  lemma BestIsUnique(gop: Protocol, pw: int, ph: int, n: nat, a: int, b: int)
    requires n <= |gop.modes| && BestAmong(gop, pw, ph, n, a) && BestAmong(gop, pw, ph, n, b)
    ensures a == b
  {
  }

  predicate AllModerate(gop: Protocol) {
    && Moderate(gop.currentInfo)
    && forall i :: 0 <= i < |gop.modes| && gop.modes[i].Info? ==> Moderate(gop.modes[i].info)
  }

  function Describe(m: ModeInfo): FramebufferInfo {
    FramebufferInfo(m.width, m.height, m.pixelsPerScanLine, m.format.RedGreenBlue?)
  }

  /** `modeSet` is the mode handed to `SetMode`, or -1 when it is not called. */
  method SetAppropriateFramebuffer(gop: Protocol, pw: int, ph: int)
    returns (success: bool, fbInfo: FramebufferInfo, modeSet: int)
    requires ModeratePreference(pw, ph) && AllModerate(gop)
    ensures BestAmong(gop, pw, ph, |gop.modes|, modeSet)
    ensures var m := Chosen(gop, modeSet);
      && fbInfo.width == m.width && fbInfo.height == m.height && fbInfo.bytesPerRow == m.pixelsPerScanLine
      && (fbInfo.isRgb <==> m.format == RedGreenBlue)
    ensures success <==> modeSet == -1 || gop.setWorks
  {
    hide Deviation, Distance;
    var bestModeInfo := gop.currentInfo;
    var bestModeIndex := gop.currentMode;
    var kept := true;
    ghost var choice := -1;
    var i := 0;
    while i < |gop.modes|
      invariant i <= |gop.modes|
      invariant BestAmong(gop, pw, ph, i, choice)
      invariant bestModeInfo == Chosen(gop, choice) && Moderate(bestModeInfo)
      invariant kept <==> choice == -1
      invariant !kept ==> bestModeIndex == choice
    {
      var q := gop.modes[i];
      i := i + 1;
      if q.Failed? {
        continue;
      }
      var thisModeInfo := q.info;
      if !thisModeInfo.format.BlueGreenRed? && !thisModeInfo.format.RedGreenBlue? {
        continue;
      }
      DeviationIsDistance(pw, ph, thisModeInfo);
      DeviationIsDistance(pw, ph, bestModeInfo);
      if Deviation(pw, ph, thisModeInfo) < Deviation(pw, ph, bestModeInfo) {
        bestModeInfo := thisModeInfo;
        bestModeIndex := i - 1;
        kept := false;
        choice := i - 1;
      }
    }
    fbInfo := Describe(bestModeInfo);
    if kept {
      return true, fbInfo, -1;
    }
    return gop.setWorks, fbInfo, bestModeIndex;
  }
}
