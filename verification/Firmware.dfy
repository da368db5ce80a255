/**
 The UEFI boot services that the loader uses, as an oracle: the answers are arbitrary, but a
 page allocation that succeeds obeys section 7.2 of the UEFI Specification, version 2.10, so
 the pages lie in memory, are disjoint from everything allocated before and do not start at
 the null address.  An answer that would break this rule counts as a refusal.
 */
module Firmware {
  import opened MemEssentials

  const PAGE_SIZE: nat := 4096

  datatype Region = Region(start: nat, pages: nat) {
    function End(): nat { start + pages * PAGE_SIZE }
  }

  predicate Apart(a: Region, b: Region) {
    a.End() <= b.start || b.End() <= a.start
  }

  predicate AllApart(rs: seq<Region>) {
    forall i, j :: 0 <= i < j < |rs| ==> Apart(rs[i], rs[j])
  }

  predicate AllWithin(rs: seq<Region>, size: nat) {
    forall i :: 0 <= i < |rs| ==> rs[i].End() <= size
  }

  predicate ApartFromAll(r: Region, rs: seq<Region>) {
    forall i :: 0 <= i < |rs| ==> Apart(r, rs[i])
  }

  datatype Answer = Refused | At(start: nat)

  predicate LegalAnswer(a: Answer, pages: nat, live: seq<Region>, size: nat) {
    && a.At? && 0 < a.start && Region(a.start, pages).End() <= size
    && ApartFromAll(Region(a.start, pages), live)
  }

  function Later<T>(answers: seq<T>): seq<T> {
    if answers == [] then [] else answers[1..]
  }

  /** The answers still to come and the pages allocated so far. */
  datatype Supply = Supply(answers: seq<Answer>, live: seq<Region>) {
    /** The next answer grants the pages: they lie in memory, apart from all others. */
    predicate Grants(pages: nat, size: nat) {
      answers != [] && LegalAnswer(answers[0], pages, live, size)
    }

    function After(pages: nat, size: nat): Supply {
      Supply(Later(answers), if Grants(pages, size) then live + [Region(answers[0].start, pages)] else live)
    }
  }

  class PageAllocator {
    const ram: array<Byte>
    var answers: seq<Answer>
    var live: seq<Region>

    ghost predicate Valid()
      reads this
    {
      AllApart(live) && AllWithin(live, ram.Length) && ram.Length <= ADDRESS_SPACE
    }

    function Now(): Supply
      reads this
    {
      Supply(answers, live)
    }

    constructor (ram: array<Byte>, answers: seq<Answer>)
      requires ram.Length <= ADDRESS_SPACE
      ensures Valid() && this.ram == ram && Now() == Supply(answers, [])
    {
      this.ram := ram;
      this.answers := answers;
      this.live := [];
    }

    method AllocatePages(pages: nat) returns (granted: bool, start: nat)
      requires Valid()
      modifies this
      ensures Valid()
      ensures granted == old(Now()).Grants(pages, ram.Length) && Now() == old(Now()).After(pages, ram.Length)
      ensures if granted then start == old(answers)[0].start else start == 0
      ensures granted ==> live == old(live) + [Region(start, pages)]
      ensures granted ==> 0 < start && Region(start, pages).End() <= ram.Length
      ensures granted ==> ApartFromAll(Region(start, pages), old(live))
      ensures !granted ==> live == old(live)
    {
      var answer := if answers == [] then Refused else answers[0];
      answers := Later(answers);
      if LegalAnswer(answer, pages, live, ram.Length) {
        live := live + [Region(answer.start, pages)];
        return true, answer.start;
      }
      return false, 0;
    }
  }

  // ---------------------------------------------------------------------
  // Images: what some allocated pages are known to hold
  // ---------------------------------------------------------------------

  datatype Image = Image(region: Region, bytes: seq<Byte>)

  /** The pages of the image begin with its bytes. */
  predicate Holds(m: seq<Byte>, im: Image) {
    && |im.bytes| <= im.region.pages * PAGE_SIZE
    && im.region.End() <= |m|
    && m[im.region.start..im.region.start + |im.bytes|] == im.bytes
  }

  ghost predicate AllHold(m: seq<Byte>, images: seq<Image>) {
    forall i :: 0 <= i < |images| ==> Holds(m, images[i])
  }

  ghost predicate AllLive(images: seq<Image>, live: seq<Region>) {
    forall i :: 0 <= i < |images| ==> images[i].region in live
  }

  /** Only bytes inside a region differ. */
  ghost predicate OnlyInside(m: seq<Byte>, m': seq<Byte>, r: Region) {
    && |m'| == |m| && r.End() <= |m|
    && m'[..r.start] == m[..r.start]
    && m'[r.End()..] == m[r.End()..]
  }

  predicate Inside(a: nat, r: Region) {
    r.start <= a < r.End()
  }

  /** Only bytes inside the regions allocated since `live0` differ. */
  ghost predicate Confined(m: seq<Byte>, m': seq<Byte>, live0: seq<Region>, live: seq<Region>) {
    && |m'| == |m| && live0 <= live
    && forall a :: 0 <= a < |m| && m'[a] != m[a] ==> exists k :: |live0| <= k < |live| && Inside(a, live[k])
  }

  lemma NothingWritten(m: seq<Byte>, live: seq<Region>)
    ensures Confined(m, m, live, live)
  {
  }

  lemma OutsideIsSame(m: seq<Byte>, m': seq<Byte>, r: Region)
    requires OnlyInside(m, m', r)
    ensures forall a :: 0 <= a < |m| && !Inside(a, r) ==> m'[a] == m[a]
  {
    forall a | 0 <= a < |m| && !Inside(a, r)
      ensures m'[a] == m[a]
    {
      if a < r.start {
        assert m'[..r.start][a] == m[..r.start][a];
      } else {
        assert m'[r.End()..][a - r.End()] == m[r.End()..][a - r.End()];
      }
    }
  }

  lemma ConfinedByRegion(m: seq<Byte>, m': seq<Byte>, live: seq<Region>, r: Region)
    requires OnlyInside(m, m', r)
    ensures Confined(m, m', live, live + [r])
  {
    OutsideIsSame(m, m', r);
    assert (live + [r])[|live|] == r;
  }

  lemma ConfinedChain(m0: seq<Byte>, m1: seq<Byte>, m2: seq<Byte>, live0: seq<Region>, live1: seq<Region>,
                      live2: seq<Region>)
    requires Confined(m0, m1, live0, live1) && Confined(m1, m2, live1, live2)
    ensures Confined(m0, m2, live0, live2)
  {
    hide Inside;
    forall a | 0 <= a < |m0| && m2[a] != m0[a]
      ensures exists k :: |live0| <= k < |live2| && Inside(a, live2[k])
    {
      if m1[a] != m0[a] {
        var k :| |live0| <= k < |live1| && Inside(a, live1[k]);
        assert Inside(a, live2[k]);
      } else {
        var k :| |live1| <= k < |live2| && Inside(a, live2[k]);
      }
    }
  }

  /** So what was allocated before is as it was. */
  lemma ConfinedKeeps(m: seq<Byte>, m': seq<Byte>, live0: seq<Region>, live: seq<Region>, i: nat)
    requires Confined(m, m', live0, live) && AllApart(live) && i < |live0| && live0[i].End() <= |m|
    ensures |m'| == |m| && m'[live0[i].start..live0[i].End()] == m[live0[i].start..live0[i].End()]
  {
    forall a | live0[i].start <= a < live0[i].End()
      ensures m'[a] == m[a]
    {
      forall k | |live0| <= k < |live|
        ensures !Inside(a, live[k])
      {
        assert live[i] == live0[i] && Apart(live[i], live[k]);
      }
    }
  }

  lemma HoldsApart(m: seq<Byte>, m': seq<Byte>, r: Region, im: Image)
    requires OnlyInside(m, m', r) && Holds(m, im) && Apart(im.region, r)
    ensures Holds(m', im)
  {
    var s, n := im.region.start, |im.bytes|;
    if s + n <= r.start {
      assert m[..r.start] == m[0..r.start] && m'[..r.start] == m'[0..r.start];
      SubWindow(m, 0, r.start, s, n);
      SubWindow(m', 0, r.start, s, n);
    } else {
      var b := r.End();
      assert m[b..] == m[b..b + (|m| - b)] && m'[b..] == m'[b..b + (|m| - b)];
      SubWindow(m, b, |m| - b, s - b, n);
      SubWindow(m', b, |m| - b, s - b, n);
    }
  }

  /** A write confined to fresh pages disturbs no image. */
  lemma ImagesSurvive(m: seq<Byte>, m': seq<Byte>, live: seq<Region>, r: Region, images: seq<Image>)
    requires OnlyInside(m, m', r) && AllHold(m, images) && AllLive(images, live) && ApartFromAll(r, live)
    ensures AllHold(m', images)
  {
    forall i | 0 <= i < |images|
      ensures Holds(m', images[i])
    {
      var k :| 0 <= k < |live| && live[k] == images[i].region;
      assert Apart(r, live[k]);
      HoldsApart(m, m', r, images[i]);
    }
  }
}
