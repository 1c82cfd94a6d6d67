/**
  The gamepad report merged from two Joy-Cons: each side's input reports replace that
  side's buttons, a timeout or a detach clears them.
*/
module JoyConPad {
  type Word = bv32

  const MASK_L: Word := 0xFF2900
  const MASK_R: Word := 0x0056FF
  const ID_L: bv8 := 0x01
  const ID_R: bv8 := 0x02

  // What a report counts as: `if (jc->type & JC_ID_L) ... else if (jc->type & JC_ID_R)`.
  datatype Side = LeftSide | RightSide | NoSide

  function SideOf(kind: bv8): Side {
    if kind & ID_L != 0 then LeftSide else if kind & ID_R != 0 then RightSide else NoSide
  }

  datatype Rail = LeftRail | RightRail

  datatype Event =
    | Report(rail: Rail, buttons: Word)   // an input report arrives on a rail
    | Identify(rail: Rail, kind: bv8)     // the device on a rail tells its type
    | Timeout(rail: Rail)                 // nothing received for a second: the rail is set up again
    | Detach(rail: Rail)                  // the detect pin says the rail is empty

  function Clear(buttons: Word, mask: Word): Word { buttons & !mask }
  function Part(buttons: Word, mask: Word): Word { buttons & mask }
  function Stray(buttons: Word): Word { buttons & !(MASK_L | MASK_R) }
  function Merge(buttons: Word, mask: Word, btn: Word): Word { Clear(buttons, mask) | Part(btn, mask) }

  function RailMask(rail: Rail): Word { if rail == LeftRail then MASK_L else MASK_R }
  function SideMask(side: Side): Word { if side == LeftSide then MASK_L else MASK_R }

  datatype Pad = Pad(buttons: Word, kindL: bv8, kindR: bv8) {
    function Kind(rail: Rail): bv8 { if rail == LeftRail then kindL else kindR }
  }

  // jc_gamepad and the contexts' types after one event.
  function Apply(p: Pad, e: Event): Pad {
    match e
    case Report(rail, btn) =>
      var side := SideOf(p.Kind(rail));
      if side == NoSide then p else p.(buttons := Merge(p.buttons, SideMask(side), btn))
    case Identify(rail, kind) => if rail == LeftRail then p.(kindL := kind) else p.(kindR := kind)
    case Timeout(rail) => p.(buttons := Clear(p.buttons, RailMask(rail)))
    case Detach(rail) => p.(buttons := Clear(p.buttons, RailMask(rail)))
  }

  function Run(es: seq<Event>): Pad {
    if es == [] then Pad(0, 0, 0) else Apply(Run(es[..|es| - 1]), es[|es| - 1])
  }

  // ----- bit-level facts -----

  lemma MasksApart(x: Word)
    ensures Part(Clear(x, MASK_R), MASK_L) == Part(x, MASK_L)
    ensures Part(Clear(x, MASK_L), MASK_R) == Part(x, MASK_R)
  {
  }

  lemma ClearedPart(x: Word, mask: Word)
    ensures Part(Clear(x, mask), mask) == 0
  {
  }

  lemma MergedPart(x: Word, mask: Word, btn: Word)
    ensures Part(Merge(x, mask, btn), mask) == Part(btn, mask)
  {
  }

  lemma MergedOther(x: Word, btn: Word)
    ensures Part(Merge(x, MASK_R, btn), MASK_L) == Part(x, MASK_L)
    ensures Part(Merge(x, MASK_L, btn), MASK_R) == Part(x, MASK_R)
  {
  }

  lemma NoOtherBits(x: Word, btn: Word, mask: Word)
    requires Stray(x) == 0 && (mask == MASK_L || mask == MASK_R)
    ensures Stray(Clear(x, mask)) == 0 && Stray(Merge(x, mask, btn)) == 0
  {
  }

  lemma StrayZero()
    ensures Stray(0) == 0
  {
  }

  // ----- what the report shows of each side -----

  // The type last told on a rail.
  function KindAt(es: seq<Event>, rail: Rail): bv8 {
    if es == [] then 0
    else
      var e := es[|es| - 1];
      if e.Identify? && e.rail == rail then e.kind else KindAt(es[..|es| - 1], rail)
  }

  function Home(side: Side): Rail { if side == LeftSide then LeftRail else RightRail }

  // What a side shows after e, when `from` is the side that e's device belongs to.
  function Shows(v: Word, from: Side, e: Event, side: Side): Word {
    if e.Report? && from == side then Part(e.buttons, SideMask(side))
    else if (e.Timeout? || e.Detach?) && e.rail == Home(side) then 0
    else v
  }

  // The latest report of one side since its rail was last cleared, else nothing.
  function View(es: seq<Event>, side: Side): Word {
    if es == [] then 0
    else
      var rest, e := es[..|es| - 1], es[|es| - 1];
      Shows(View(rest, side), SideOf(KindAt(rest, e.rail)), e, side)
  }

  lemma ViewLast(rest: seq<Event>, e: Event, side: Side)
    ensures View(rest + [e], side) == Shows(View(rest, side), SideOf(KindAt(rest, e.rail)), e, side)
  {
  }

  lemma {:induction false} KindsAre(es: seq<Event>)
    ensures Run(es).kindL == KindAt(es, LeftRail) && Run(es).kindR == KindAt(es, RightRail)
    decreases |es|
  {
    hide SideOf, Merge, Clear;
    if es != [] { KindsAre(es[..|es| - 1]); }
  }

  lemma ApplyShows(p: Pad, e: Event)
    ensures Part(Apply(p, e).buttons, MASK_L) == Shows(Part(p.buttons, MASK_L), SideOf(p.Kind(e.rail)), e, LeftSide)
    ensures Part(Apply(p, e).buttons, MASK_R) == Shows(Part(p.buttons, MASK_R), SideOf(p.Kind(e.rail)), e, RightSide)
  {
    hide SideOf, Merge, Clear, Part;
    MasksApart(p.buttons);
    ClearedPart(p.buttons, MASK_L);
    ClearedPart(p.buttons, MASK_R);
    if e.Report? {
      MergedPart(p.buttons, MASK_L, e.buttons);
      MergedPart(p.buttons, MASK_R, e.buttons);
      MergedOther(p.buttons, e.buttons);
    }
  }

  lemma NothingPressed()
    ensures Part(0, MASK_L) == 0 && Part(0, MASK_R) == 0
  {
  }

  // Over any interleaving of reports, timeouts and detaches the merged word shows, for
  // each side, that side's latest report since its rail was cleared.
  lemma {:induction false} ReportShows(es: seq<Event>)
    ensures Part(Run(es).buttons, MASK_L) == View(es, LeftSide)
    ensures Part(Run(es).buttons, MASK_R) == View(es, RightSide)
    decreases |es|
  {
    hide SideOf, Part, Apply, Shows;
    if es == [] {
      NothingPressed();
    } else {
      var rest, e := es[..|es| - 1], es[|es| - 1];
      ReportShows(rest);
      KindsAre(rest);
      ApplyShows(Run(rest), e);
    }
  }

  // ... and no bit outside the two masks is ever set.
  lemma {:induction false} NoStrayBits(es: seq<Event>)
    ensures Stray(Run(es).buttons) == 0
    decreases |es|
  {
    StrayZero();
    hide SideOf, Merge, Clear, Stray;
    if es != [] {
      var p, e := Run(es[..|es| - 1]), es[|es| - 1];
      NoStrayBits(es[..|es| - 1]);
      if e.Report? {
        NoOtherBits(p.buttons, e.buttons, SideMask(SideOf(p.Kind(e.rail))));
      } else if !e.Identify? {
        NoOtherBits(p.buttons, 0, RailMask(e.rail));
      }
    }
  }

  // ----- the two sides do not interfere -----

  function OnRail(es: seq<Event>, rail: Rail): seq<Event> {
    if es == [] then []
    else OnRail(es[..|es| - 1], rail) + (if es[|es| - 1].rail == rail then [es[|es| - 1]] else [])
  }

  // No report arrives on the other rail while its device counts as this side.
  ghost predicate NoStranger(es: seq<Event>, side: Side) {
    forall i :: 0 <= i < |es| && es[i].Report? && es[i].rail != Home(side) ==> SideOf(KindAt(es[..i], es[i].rail)) != side
  }

  lemma {:induction false} KindOnRail(es: seq<Event>, rail: Rail)
    ensures KindAt(OnRail(es, rail), rail) == KindAt(es, rail)
    decreases |es|
  {
    if es != [] {
      var rest, e := es[..|es| - 1], es[|es| - 1];
      KindOnRail(rest, rail);
      var on := OnRail(rest, rail);
      if e.rail == rail { assert OnRail(es, rail) == on + [e] && (on + [e])[..|on|] == on; } else { assert OnRail(es, rail) == on; }
    }
  }

  // An event on the other rail does not change what a side shows.
  lemma OtherRail(v: Word, from: Side, e: Event, side: Side)
    requires side != NoSide && e.rail != Home(side) && (e.Report? ==> from != side)
    ensures Shows(v, from, e, side) == v
  {
  }

  lemma StrangerFree(rest: seq<Event>, e: Event, side: Side)
    requires NoStranger(rest + [e], side)
    ensures NoStranger(rest, side)
    ensures e.Report? && e.rail != Home(side) ==> SideOf(KindAt(rest, e.rail)) != side
  {
    hide SideOf, KindAt;
    var es := rest + [e];
    forall i | 0 <= i < |rest| && rest[i].Report? && rest[i].rail != Home(side)
      ensures SideOf(KindAt(rest[..i], rest[i].rail)) != side
    {
      assert es[i] == rest[i] && es[..i] == rest[..i];
    }
    assert es[|rest|] == e && es[..|rest|] == rest;
  }

  lemma {:induction false} ViewOnRail(es: seq<Event>, side: Side)
    requires NoStranger(es, side) && side != NoSide
    ensures View(es, side) == View(OnRail(es, Home(side)), side)
    decreases |es|
  {
    if es != [] {
      hide SideOf, Shows, View;
      var rest, e := es[..|es| - 1], es[|es| - 1];
      var on := OnRail(rest, Home(side));
      assert es == rest + [e];
      StrangerFree(rest, e, side);
      ViewOnRail(rest, side);
      ViewLast(rest, e, side);
      if e.rail == Home(side) {
        KindOnRail(rest, e.rail);
        ViewLast(on, e, side);
      } else {
        OtherRail(View(rest, side), SideOf(KindAt(rest, e.rail)), e, side);
        assert OnRail(es, Home(side)) == on;
      }
    }
  }

  // What a side shows depends on its own rail only.
  lemma SidesIndependent(es: seq<Event>, fs: seq<Event>, side: Side)
    requires side != NoSide && NoStranger(es, side) && NoStranger(fs, side)
    requires OnRail(es, Home(side)) == OnRail(fs, Home(side))
    ensures Part(Run(es).buttons, SideMask(side)) == Part(Run(fs).buttons, SideMask(side))
  {
    hide Part, View, Run, NoStranger;
    ReportShows(es);
    ReportShows(fs);
    ViewOnRail(es, side);
    ViewOnRail(fs, side);
  }

  // An event on the other rail changes a side's bits exactly when it is a report, its device
  // counts as this side, and the bits are not those already shown.
  lemma StrangerChanges(es: seq<Event>, e: Event, side: Side)
    requires side != NoSide && e.rail != Home(side)
    ensures Part(Run(es + [e]).buttons, SideMask(side)) != Part(Run(es).buttons, SideMask(side)) <==>
            && e.Report? && SideOf(KindAt(es, e.rail)) == side
            && Part(e.buttons, SideMask(side)) != View(es, side)
  {
    hide Part, View, Run, SideOf, KindAt;
    ReportShows(es);
    ReportShows(es + [e]);
    ViewLast(es, e, side);
  }

  // For one, a device of type L on the right rail sets the left buttons.
  lemma StrangerInterferes(btn: Word)
    requires Part(btn, MASK_L) != 0
    ensures var es := [Identify(RightRail, ID_L), Report(RightRail, btn)];
            && OnRail(es, LeftRail) == OnRail([], LeftRail)
            && Part(Run(es).buttons, MASK_L) != Part(Run([]).buttons, MASK_L)
  {
  }

  // ----- the driver -----

  class Driver {
    var pad: Pad
    ghost var events: seq<Event>

    ghost predicate Valid()
      reads this
    {
      pad == Run(events)
    }

    constructor ()
      ensures Valid() && events == []
    {
      pad, events := Pad(0, 0, 0), [];
    }

    // jc_parse_wired_hid for the context of a rail
    method ParseWiredHid(rail: Rail, cmd: bv8, btnRight: bv8, btnShared: bv8, btnLeft: bv8)
      requires Valid()
      modifies this
      ensures Valid()
      ensures events == old(events) +
                if cmd == 0x00 || cmd == 0x30 then [Report(rail, ButtonWord(btnRight, btnShared, btnLeft))] else []
      // in bits: the side's own ones are those of the report, the others stay
      ensures ShowsReport(rail, cmd, ButtonWord(btnRight, btnShared, btnLeft), old(pad), pad)
    {
      hide Merge, Clear, SideOf, Part, ButtonWord, Run, ShowsReport;
      ReportBits(rail, cmd, ButtonWord(btnRight, btnShared, btnLeft), pad);
      if cmd == 0x00 || cmd == 0x30 {
        var btn := ButtonWord(btnRight, btnShared, btnLeft);
        var kind := pad.Kind(rail);
        SideIs(kind);
        if kind & ID_L != 0 {
          pad := pad.(buttons := Clear(pad.buttons, MASK_L));
          pad := pad.(buttons := pad.buttons | Part(btn, MASK_L));
          MergeIs(old(pad).buttons, MASK_L, btn);
        } else if kind & ID_R != 0 {
          pad := pad.(buttons := Clear(pad.buttons, MASK_R));
          pad := pad.(buttons := pad.buttons | Part(btn, MASK_R));
          MergeIs(old(pad).buttons, MASK_R, btn);
        }
        Happens(old(events), Report(rail, btn));
        events := events + [Report(rail, btn)];
      } else {
        assert events + [] == events;
      }
    }

    // jc_parse_wired_init
    method ParseWiredInit(rail: Rail, reply: bv8, kind: bv8)
      requires Valid()
      modifies this
      ensures Valid()
      ensures events == old(events) + if reply == 0x01 then [Identify(rail, kind)] else []
      ensures pad == if reply != 0x01 then old(pad) else if rail == LeftRail then old(pad).(kindL := kind) else old(pad).(kindR := kind)
    {
      hide Run;
      if reply == 0x01 {
        pad := if rail == LeftRail then pad.(kindL := kind) else pad.(kindR := kind);
        Happens(old(events), Identify(rail, kind));
        events := events + [Identify(rail, kind)];
      } else {
        assert events + [] == events;
      }
    }

    // jc_init_conn: the time since the last packet, in u32 milliseconds
    method InitConn(rail: Rail, now: Word, lastReceived: Word)
      requires Valid()
      modifies this
      ensures Valid()
      ensures events == old(events) + if now - lastReceived > 1000 then [Timeout(rail)] else []
      ensures var mask: Word := if now - lastReceived <= 1000 then 0 else if rail == LeftRail then 0xFF2900 else 0x0056FF;
              pad == old(pad).(buttons := Clear(old(pad.buttons), mask))
    {
      hide Clear, Run;
      ClearNothing(pad.buttons);
      if now - lastReceived > 1000 {
        pad := pad.(buttons := Clear(pad.buttons, RailMask(rail)));
        Happens(old(events), Timeout(rail));
        events := events + [Timeout(rail)];
      } else {
        assert events + [] == events;
      }
    }

    // jc_conn_check
    method ConnCheck(leftEmpty: bool, rightEmpty: bool)
      requires Valid()
      modifies this
      ensures Valid()
      ensures events == old(events) + (if leftEmpty then [Detach(LeftRail)] else []) + (if rightEmpty then [Detach(RightRail)] else [])
      ensures var left: Word := if leftEmpty then 0xFF2900 else 0; var right: Word := if rightEmpty then 0x0056FF else 0;
              pad == old(pad).(buttons := Clear(Clear(old(pad.buttons), left), right))
    {
      hide Clear, Run;
      ClearNothing(pad.buttons);
      ClearNothing(Clear(pad.buttons, MASK_L));
      if leftEmpty {
        pad := pad.(buttons := Clear(pad.buttons, MASK_L));
        Happens(events, Detach(LeftRail));
        events := events + [Detach(LeftRail)];
      }
      if rightEmpty {
        pad := pad.(buttons := Clear(pad.buttons, MASK_R));
        Happens(events, Detach(RightRail));
        events := events + [Detach(RightRail)];
      }
    }
  }

  function ButtonWord(btnRight: bv8, btnShared: bv8, btnLeft: bv8): Word {
    (btnRight as Word) | ((btnShared as Word) << 8) | ((btnLeft as Word) << 16)
  }

  // A report on a rail: the device there gives the bits inside the mask of its side, the others
  // stay.  Other commands, and devices of neither side, change nothing.
  ghost predicate ShowsReport(rail: Rail, cmd: bv8, btn: Word, p: Pad, p': Pad) {
    var kind := if rail == LeftRail then p.kindL else p.kindR;
    && p'.kindL == p.kindL && p'.kindR == p.kindR
    && if cmd != 0x00 && cmd != 0x30 then p'.buttons == p.buttons
       else if kind & 0x01 != 0 then Shown(0xFF2900, btn, p.buttons, p'.buttons)
       else if kind & 0x02 != 0 then Shown(0x0056FF, btn, p.buttons, p'.buttons)
       else p'.buttons == p.buttons
  }

  // Inside the mask x' has the bits of btn, outside those of x.
  ghost predicate Shown(mask: Word, btn: Word, x: Word, x': Word) {
    Part(x', mask) == Part(btn, mask) && Clear(x', mask) == Clear(x, mask)
  }

  lemma ReportBits(rail: Rail, cmd: bv8, btn: Word, p: Pad)
    ensures ShowsReport(rail, cmd, btn, p, if cmd == 0x00 || cmd == 0x30 then Apply(p, Report(rail, btn)) else p)
  {
    hide Merge, Shown;
    SideIs(p.Kind(rail));
    ShownMerge(MASK_L, btn, p.buttons);
    ShownMerge(MASK_R, btn, p.buttons);
    hide SideOf;
  }

  lemma ShownMerge(mask: Word, btn: Word, x: Word)
    ensures Shown(mask, btn, x, Merge(x, mask, btn))
  {
    hide Merge, Part, Clear;
    MergedPart(x, mask, btn);
    MergedRest(x, mask, btn);
  }

  lemma MergedRest(x: Word, mask: Word, btn: Word)
    ensures Clear(Merge(x, mask, btn), mask) == Clear(x, mask)
  {
  }

  lemma ClearNothing(x: Word)
    ensures Clear(x, 0) == x
  {
  }

  // The bits inside a mask and those outside.
  lemma InsideOutside(x: Word, mask: Word)
    ensures Part(x, mask) == x & mask && Clear(x, mask) == x & !mask
  {
  }

  // The three bytes of a report, right to left.
  lemma ButtonBytes(btnRight: bv8, btnShared: bv8, btnLeft: bv8)
    ensures var w := ButtonWord(btnRight, btnShared, btnLeft);
            && w & 0xFF == btnRight as Word && (w >> 8) & 0xFF == btnShared as Word && w >> 16 == btnLeft as Word
  {
  }

  lemma Happens(es: seq<Event>, e: Event)
    ensures Run(es + [e]) == Apply(Run(es), e)
  {
  }

  lemma SideIs(kind: bv8)
    ensures SideOf(kind) == if kind & ID_L != 0 then LeftSide else if kind & ID_R != 0 then RightSide else NoSide
  {
  }

  lemma MergeIs(x: Word, mask: Word, btn: Word)
    ensures Merge(x, mask, btn) == Clear(x, mask) | Part(btn, mask)
  {
  }
}
