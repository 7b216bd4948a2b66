/**
 modeset-vsync.c: preparing an output for each connector, the page-flip protocol between
 the program and the kernel, and the cleanup that waits for outstanding flips. The kernel
 is an environment: Interrupts stands for any number of vertical blanks, and every call
 into the kernel may fail. A method verified here is verified for every such choice.
 */
module Modeset {
  import opened Optional
  import opened ModesetDevice

  datatype Outcome = NotPrepared | Finished | StillWaiting | Strayed

  // How the wait for a device ends: its flip is done, a read failed, a handler met freed memory, or it goes on.
  datatype Waited = Done | GivenUp | Stray | Going

  ghost predicate Distinct(s: seq<Device>) {
    forall i, j :: 0 <= i < j < |s| ==> s[i] != s[j]
  }

  lemma WithoutFirst(s: seq<Device>, d: Device)
    requires s != [] && Distinct(s)
    ensures d in s[1..] <==> d in s && d != s[0]
  {
    if d in s && d != s[0] {
      var i :| 0 <= i < |s| && s[i] == d;
      assert s[1..][i - 1] == d;
    }
  }

  ghost function Members(s: seq<Device>): set<Device> {
    set d | d in s
  }

  ghost function Only(d: Device?): set<Device> {
    if d == null then {} else {d}
  }

  // Every device has two keys of its own, and there are no others.
  lemma {:induction false} TwoEach(ds: set<Device>, owner: map<nat, Device>, first: map<Device, nat>,
                                   second: map<Device, nat>)
    requires forall d :: d in ds ==> d in first && d in second && first[d] != second[d]
    requires forall d :: d in ds ==>
      first[d] in owner && owner[first[d]] == d && second[d] in owner && owner[second[d]] == d
    requires forall h :: h in owner ==> owner[h] in ds && (h == first[owner[h]] || h == second[owner[h]])
    ensures |owner| == 2 * |ds|
  {
    if ds == {} {
      assert owner == map[];
    } else {
      var d :| d in ds;
      var a, b := first[d], second[d];
      var rest := owner - {a, b};
      assert forall h :: h in rest ==> owner[h] != d;
      TwoEach(ds - {d}, rest, first, second);
      TwoMore(owner, a, b);
    }
  }

  lemma TwoMore(m: map<nat, Device>, a: nat, b: nat)
    requires a in m && b in m && a != b
    ensures |m| == |m - {a, b}| + 2
  {
    var rest := m - {a, b};
    assert m.Keys == rest.Keys + {a} + {b};
    assert |m| == |m.Keys| && |rest| == |rest.Keys|;
  }

  lemma {:induction false} MembersCount(s: seq<Device>)
    requires Distinct(s)
    ensures |Members(s)| == |s|
  {
    if s != [] {
      MembersCount(s[1..]);
      WithoutFirst(s, s[0]);
      assert Members(s) == Members(s[1..]) + {s[0]};
    }
  }

  /** The program: its device list, the device being cleaned up, and the events it has read but not dispatched. */
  class Program {
    const kernel: Kernel
    var list: Device?               // modeset_list
    var current: Device?            // iter of modeset_cleanup
    var batch: seq<Device>          // events that drmHandleEvent has read and not yet dispatched
    var freed: set<Device>          // the devices whose memory has been given back

    ghost var devs: seq<Device>     // the devices on the list
    ghost var live: set<Device>     // the devices not yet freed
    ghost var known: set<Device>    // these, and those freed while the kernel still owed them a flip or an event
    ghost var shown: set<Device>    // the devices for which drmModeSetCrtc succeeded
    ghost var owner: map<nat, Device>   // the device that each dumb buffer was made for
    ghost var failed: bool          // some drmHandleEvent of the cleanup has failed

    constructor (kernel: Kernel)
      ensures this.kernel == kernel && list == null && current == null && batch == [] && freed == {}
      ensures devs == [] && live == {} && known == {} && shown == {} && owner == map[] && !failed
    {
      this.kernel := kernel;
      list, current, batch, freed := null, null, [], {};
      devs, live, known, shown, owner, failed := [], {}, {}, {}, map[], false;
    }

    // ---- what every step of the protocol keeps

    // The events the program has not acted on.
    ghost function Pending(): seq<Device>
      reads this`batch, kernel`events
    {
      batch + kernel.events
    }

    // A device's flag, buffers, flip and events agree with each other.
    ghost predicate InStep(d: Device)
      reads this`batch, kernel`events, kernel`queued, kernel`scanout, d`bufs, d`frontBuf, d`crtc, d`pflipPending
    {
      && |d.bufs| == 2 && d.frontBuf < 2 && d.Front() != d.Back()
      && (d.pflipPending <==> d.crtc in kernel.queued || d in Pending())
      && (d.crtc in kernel.queued ==> kernel.queued[d.crtc] == Flip(d.Front(), d) && d !in Pending())
      && (d.crtc !in kernel.queued && d.crtc in kernel.scanout ==> kernel.scanout[d.crtc] != d.Back())
    }

    ghost predicate Separate(d: Device, e: Device)
      reads d`bufs, d`crtc, e`bufs, e`crtc
    {
      d.crtc != e.crtc && forall fb :: !(d.Owns(fb) && e.Owns(fb))
    }

    // No two devices share a CRTC or a framebuffer.
    ghost predicate Apart()
      reads this`known, known`bufs, known`crtc
    {
      forall d, e :: d in known && e in known && d != e ==> Separate(d, e)
    }

    // A queued flip is for the device of its CRTC.
    ghost predicate QueueOk()
      reads this`known, kernel`queued, known`crtc
    {
      forall c :: c in kernel.queued ==> kernel.queued[c].dev in known && kernel.queued[c].dev.crtc == c
    }

    // Each undelivered event is for a known device, which has no other.
    ghost predicate EventsOk()
      reads this`known, this`batch, kernel`events
    {
      (forall d :: d in Pending() ==> d in known) && Distinct(Pending())
    }

    // A device's buffers are shown on its own CRTC only.
    ghost predicate ScanoutOk()
      reads this`known, kernel`scanout, known`bufs, known`crtc
    {
      forall c, d :: c in kernel.scanout && d in known && d.Owns(kernel.scanout[c]) ==> c == d.crtc
    }

    // Once set, a CRTC shows the front buffer, or the back buffer while a flip to the front one is queued.
    ghost predicate Shows(d: Device)
      reads kernel`queued, kernel`scanout, d`bufs, d`frontBuf, d`crtc
    {
      d.crtc in kernel.scanout &&
      kernel.scanout[d.crtc] == if d.crtc in kernel.queued then d.Back() else d.Front()
    }

    ghost predicate ShownOk()
      reads this`known, this`shown, kernel`queued, kernel`scanout, known`bufs, known`frontBuf, known`crtc
    {
      forall d :: d in known && d in shown ==> Shows(d)
    }

    ghost predicate AllInStep()
      reads this`known, this`batch, kernel`events, kernel`queued, kernel`scanout, known`bufs, known`frontBuf
      reads known`crtc, known`pflipPending
    {
      forall d :: d in known ==> InStep(d)
    }

    ghost predicate Flipping()
      reads this`known, this`shown, this`batch, kernel`events, kernel`queued, kernel`scanout, kernel`faults
      reads known`bufs, known`frontBuf, known`crtc, known`pflipPending
    {
      AllInStep() && Apart() && QueueOk() && EventsOk() && ScanoutOk() && ShownOk() && kernel.faults == {}
    }

    // A known device is freed or live, and is freed only while its flip is pending.
    ghost predicate FreedOk()
      reads this`live, this`known, this`freed, known`pflipPending
    {
      live == known - freed && forall d :: d in known && d in freed ==> d.pflipPending
    }

    // The list, and the device under cleanup beside it, are the devices ds; only that one has its cleanup flag set.
    ghost predicate Listing(ds: set<Device>)
      reads this`list, this`current, this`devs, devs`next, ds`cleanup
    {
      && Linked(list, devs) && Distinct(devs)
      && ds == Members(devs) + Only(current) && (current == null || current !in devs)
      && (forall d :: d in ds ==> (d.cleanup <==> d == current))
    }

    // ---- the protocol

    // Without a pending flip the back buffer is neither scanned out nor queued, and a CRTC that was set shows the
    // front buffer.
    lemma BackIsHidden(dev: Device)
      requires Flipping() && dev in known && !dev.pflipPending
      ensures !kernel.Visible(dev.Back()) && dev.crtc !in kernel.queued
      ensures dev in shown ==> dev.crtc in kernel.scanout && kernel.scanout[dev.crtc] == dev.Front()
    {
      assert InStep(dev);
      hide EventsOk;
      forall c | c in kernel.queued
        ensures kernel.queued[c].fb != dev.Back()
      {
        var d := kernel.queued[c].dev;
        assert InStep(d) && Separate(d, dev) && d.Owns(d.Front()) && dev.Owns(dev.Back());
      }
      assert dev in shown ==> Shows(dev);
    }

    // The flip to the back buffer of dev is queued, and dev does not know it yet; everything else agrees.
    ghost predicate JustQueued(dev: Device)
      reads this`known, this`shown, this`batch, kernel`events, kernel`queued, kernel`scanout, kernel`faults
      reads known`bufs, known`frontBuf, known`crtc, known`pflipPending, dev`bufs, dev`frontBuf, dev`crtc
      reads dev`pflipPending
    {
      && |dev.bufs| == 2 && dev.frontBuf < 2 && dev.Front() != dev.Back() && dev !in Pending()
      && dev.crtc in kernel.queued && kernel.queued[dev.crtc] == Flip(dev.Back(), dev)
      && (dev in shown ==> dev.crtc in kernel.scanout && kernel.scanout[dev.crtc] == dev.Front())
      && (forall d :: d in known && d != dev ==> InStep(d) && (d in shown ==> Shows(d)))
      && Apart() && QueueOk() && EventsOk() && ScanoutOk() && kernel.faults == {}
    }

    // The buffer just painted is queued and becomes the front buffer.
    method FlipDev(dev: Device, fb: nat) returns (ok: bool)
      requires Flipping() && dev in known && !dev.pflipPending && !dev.cleanup && fb == dev.Back()
      modifies dev`frontBuf, dev`pflipPending, kernel`queued, kernel`faults, kernel`requests
      ensures Flipping() && kernel.requests == old(kernel.requests) + [AskFlip(dev.crtc, fb)]
      ensures dev.pflipPending == ok && dev.frontBuf == if ok then 1 - old(dev.frontBuf) else old(dev.frontBuf)
      ensures kernel.queued == if ok then old(kernel.queued)[dev.crtc := Flip(fb, dev)] else old(kernel.queued)
    {
      ok := Queue(dev, fb);
      if ok {
        SwapBuffers(dev);
      }
    }

    method Queue(dev: Device, fb: nat) returns (ok: bool)
      requires Flipping() && dev in known && !dev.pflipPending && !dev.cleanup && fb == dev.Back()
      modifies kernel`queued, kernel`faults, kernel`requests
      ensures (if ok then JustQueued(dev) else Flipping())
      ensures kernel.requests == old(kernel.requests) + [AskFlip(dev.crtc, fb)]
      ensures |dev.bufs| == 2 && dev.frontBuf < 2
      ensures kernel.queued == if ok then old(kernel.queued)[dev.crtc := Flip(fb, dev)] else old(kernel.queued)
    {
      BackIsHidden(dev);
      StepsOf(dev);
      ok := kernel.PageFlip(dev.crtc, fb, dev);
      forall d | d in known && d != dev
        ensures InStep(d) && (d in shown ==> Shows(d))
      {
        assert old(InStep(d)) && old(d in shown ==> Shows(d));
        assert Separate(d, dev);
      }
      hide InStep, Shows, EventsOk, ScanoutOk, Apart;
    }

    method SwapBuffers(dev: Device)
      requires JustQueued(dev) && dev in known
      modifies dev`frontBuf, dev`pflipPending
      ensures Flipping() && dev.pflipPending && dev.frontBuf == 1 - old(dev.frontBuf)
    {
      dev.frontBuf := 1 - dev.frontBuf;
      dev.pflipPending := true;
      forall d | d in known && d != dev
        ensures InStep(d) && (d in shown ==> Shows(d))
      {
        assert old(InStep(d)) && old(d in shown ==> Shows(d));
      }
      assert InStep(dev) && (dev in shown ==> Shows(dev));
      hide InStep, Shows, EventsOk, ScanoutOk, Apart, QueueOk;
    }

    lemma StepsOf(dev: Device)
      requires Flipping() && dev in known
      ensures InStep(dev)
    {
    }

    // modeset_draw_dev; the kernel may interrupt between any two pixels
    method DrawDev(dev: Device) returns (ok: bool)
      requires Flipping() && dev in known && !dev.pflipPending && !dev.cleanup
      modifies dev`frontBuf, dev`pflipPending, kernel`queued, kernel`scanout, kernel`events, kernel`faults
      modifies kernel`requests
      ensures Flipping() && old(Pending()) <= Pending()
      ensures kernel.requests == old(kernel.requests) + [AskFlip(dev.crtc, old(dev.Back()))]
      ensures dev.pflipPending == ok && dev.frontBuf == if ok then 1 - old(dev.frontBuf) else old(dev.frontBuf)
      ensures ok ==> dev.crtc in kernel.queued && kernel.queued[dev.crtc] == Flip(old(dev.Back()), dev)
    {
      hide AllInStep, Apart, QueueOk, EventsOk, ScanoutOk, ShownOk;
      StepsOf(dev);
      var buf := dev.bufs[1 - dev.frontBuf];
      for j := 0 to buf.height
        invariant Flipping() && old(Pending()) <= Pending() && kernel.requests == old(kernel.requests)
        invariant !dev.pflipPending && dev.frontBuf == old(dev.frontBuf)
      {
        for k := 0 to buf.width
          invariant Flipping() && old(Pending()) <= Pending() && kernel.requests == old(kernel.requests)
          invariant !dev.pflipPending && dev.frontBuf == old(dev.frontBuf)
        {
          BackIsHidden(dev);
          kernel.Paint(buf.fb);
          Interrupts();
        }
      }
      ok := FlipDev(dev, buf.fb);
    }

    // The kernel carries out a queued flip.
    method Vblank(crtc: nat)
      requires Flipping() && crtc in kernel.queued
      modifies kernel`queued, kernel`scanout, kernel`events
      ensures Flipping() && kernel.queued == old(kernel.queued) - {crtc}
      ensures Pending() == old(Pending()) + [old(kernel.queued)[crtc].dev]
    {
      ghost var dev := kernel.queued[crtc].dev;
      assert InStep(dev);
      kernel.Vblank(crtc);
      assert Pending() == old(Pending()) + [dev];
      forall d | d in known
        ensures InStep(d)
      {
        assert old(InStep(d));
        assert d != dev ==> Separate(d, dev);
      }
      forall d | d in known && d in shown
        ensures Shows(d)
      {
        assert old(Shows(d));
        assert d != dev ==> Separate(d, dev);
      }
      assert dev.Owns(dev.Front());
      forall c, d | c in kernel.scanout && d in known && d.Owns(kernel.scanout[c])
        ensures c == d.crtc
      {
        assert d != dev ==> Separate(d, dev);
      }
    }

    // Any number of vertical blanks, on any CRTCs.
    method Interrupts()
      requires Flipping()
      modifies kernel`queued, kernel`scanout, kernel`events
      ensures Flipping() && old(Pending()) <= Pending() && kernel.queued.Keys <= old(kernel.queued).Keys
    {
      hide AllInStep, Apart, QueueOk, EventsOk, ScanoutOk, ShownOk;
      var n: nat :| 0 <= n;
      for i := 0 to n
        invariant Flipping() && old(Pending()) <= Pending() && kernel.queued.Keys <= old(kernel.queued).Keys
      {
        var crtc: nat := *;
        if crtc in kernel.queued {
          Vblank(crtc);
        }
      }
    }

    // The event leaves the batch, and the device no longer waits for it.
    method Delivered(dev: Device)
      requires Flipping() && batch != [] && dev == batch[0] && dev in known
      modifies this`batch, dev`pflipPending
      ensures Flipping() && batch == old(batch)[1..] && !dev.pflipPending
    {
      ghost var before := Pending();
      assert InStep(dev);
      assert before[0] == dev;
      batch := batch[1..];
      dev.pflipPending := false;
      assert Pending() == before[1..];
      forall d | d in known
        ensures InStep(d)
      {
        assert old(InStep(d));
        WithoutFirst(before, d);
        assert d != dev ==> Separate(d, dev);
      }
      forall d | d in Pending()
        ensures d in known
      {
        WithoutFirst(before, d);
      }
    }

    lemma FirstIsKnown()
      requires Flipping() && batch != []
      ensures batch[0] in known
    {
      assert batch[0] == Pending()[0];
    }

    // modeset_page_flip_event, for the first event of the batch; on a freed device it is undefined, and the run ends
    method PageFlipEvent() returns (stray: bool)
      requires Flipping() && FreedOk() && batch != []
      modifies this`batch, known`frontBuf, known`pflipPending
      modifies kernel`queued, kernel`scanout, kernel`events, kernel`faults, kernel`requests
      ensures stray <==> old(batch)[0] in freed
      ensures stray ==> kernel.faults == {StrayEvent} && known != live
      ensures !stray ==> Flipping() && FreedOk() && batch == old(batch)[1..]
      ensures !stray ==>
        kernel.requests == old(kernel.requests)
              + if old(batch)[0].cleanup then [] else [AskFlip(old(batch[0].crtc), old(batch[0].Back()))]
      ensures old(batch)[0].cleanup && !stray ==> !old(batch)[0].pflipPending && kernel.queued == old(kernel.queued)
    {
      hide AllInStep, Apart, QueueOk, EventsOk, ScanoutOk, ShownOk, Pending, Device.Front, Device.Back;
      var dev := batch[0];
      FirstIsKnown();
      if dev in freed {
        NoFaultYet();
        kernel.faults := kernel.faults + {StrayEvent};
        return true;
      }
      stray := false;
      Delivered(dev);
      if !dev.cleanup {
        var ok := DrawDev(dev);
      }
    }

    lemma NoFaultYet()
      requires Flipping()
      ensures kernel.faults == {}
    {
    }

    // drmHandleEvent: it fails, or reads some of the events and runs the handler for each
    method HandleEvent() returns (ret: int, stray: bool)
      requires Flipping() && FreedOk() && batch == []
      modifies this`batch, known`frontBuf, known`pflipPending
      modifies kernel`queued, kernel`scanout, kernel`events, kernel`faults, kernel`requests
      ensures if stray then kernel.faults == {StrayEvent} && known != live else Flipping() && FreedOk() && batch == []
      ensures ret != 0 ==> !stray && forall d :: d in known ==> d.pflipPending == old(d.pflipPending)
    {
      hide AllInStep, Apart, QueueOk, EventsOk, ScanoutOk, ShownOk;
      ret, stray := 0, false;
      Interrupts();
      var fails: bool := *;
      if fails {
        return -1, false;
      }
      var n: nat :| n <= |kernel.events|;
      Read(n);
      while batch != []
        invariant Flipping() && FreedOk()
        decreases |batch|
      {
        stray := PageFlipEvent();
        if stray {
          return;
        }
        Interrupts();
      }
    }

    method Read(n: nat)
      requires Flipping() && batch == [] && n <= |kernel.events|
      modifies this`batch, kernel`events
      ensures Flipping() && batch == old(kernel.events)[..n]
    {
      batch, kernel.events := kernel.events[..n], kernel.events[n..];
      assert Pending() == old(Pending());
      forall d | d in known
        ensures InStep(d)
      {
        assert old(InStep(d));
      }
    }

    // ---- what is held

    // The dumb buffers, framebuffers and mappings of a device.
    ghost predicate Holds(d: Device, fbs: map<nat, nat>)
      reads this`owner, d`bufs
    {
      && |d.bufs| == 2 && d.bufs[0].handle != d.bufs[1].handle
      && d.bufs[0].handle in owner && owner[d.bufs[0].handle] == d
      && d.bufs[1].handle in owner && owner[d.bufs[1].handle] == d
      && d.bufs[0].fb in fbs && fbs[d.bufs[0].fb] == d.bufs[0].handle
      && d.bufs[1].fb in fbs && fbs[d.bufs[1].fb] == d.bufs[1].handle
    }

    // Two dumb buffers and two framebuffers for each device of ds, and nothing else.
    ghost predicate Balanced(ds: set<Device>, dumbs: set<nat>, fbs: map<nat, nat>)
      reads this`owner, ds`bufs
    {
      && dumbs == owner.Keys
      && (forall d :: d in ds ==> Holds(d, fbs))
      && (forall h :: h in owner ==> owner[h] in ds && h in owner[h].Handles())
      && (forall f :: f in fbs ==> f != 0 && fbs[f] in owner && owner[fbs[f]].Owns(f))
    }

    // All that the kernel has handed out belongs to the live devices.
    ghost predicate Accounts()
      reads this`owner, this`live, kernel`dumbs, kernel`fbs, kernel`maps, live`bufs
    {
      kernel.maps == kernel.dumbs && Balanced(live, kernel.dumbs, kernel.fbs)
    }

    // The framebuffer a CRTC showed before is not one of the program's own, neither now nor before.
    ghost predicate SavedOk()
      reads this`live, this`known, live`savedFb, known`bufs, kernel`fbs
    {
      && (forall d :: d in live ==> d.savedFb !in kernel.fbs)
      && (forall d, e :: d in live && e in known && e !in live ==> !e.Owns(d.savedFb))
    }

    ghost predicate Inv()
      reads this, kernel, live, known, devs
    {
      Flipping() && Listing(live) && Accounts() && SavedOk() && FreedOk()
    }

    // Between two steps of the program.
    method Blank(crtc: nat)
      requires Inv() && crtc in kernel.queued
      modifies kernel`queued, kernel`scanout, kernel`events
      ensures Inv() && kernel.queued == old(kernel.queued) - {crtc}
      ensures Pending() == old(Pending()) + [old(kernel.queued)[crtc].dev]
    {
      hide Flipping, Listing, Accounts, SavedOk, FreedOk, Pending;
      Vblank(crtc);
    }

    // Nothing has been shown yet.
    ghost predicate Idle()
      reads this`known, this`freed, this`batch, this`current, this`shown
      reads kernel`queued, kernel`events, kernel`scanout, kernel`fbs
      reads known`pflipPending, known`frontBuf, known`savedFb
    {
      && kernel.queued == map[] && kernel.events == [] && batch == [] && current == null && shown == {} && freed == {}
      && (forall d :: d in known ==> !d.pflipPending && d.frontBuf == 0 && d.savedFb == 0)
      && (forall c :: c in kernel.scanout ==> kernel.scanout[c] !in kernel.fbs)
    }

    // ---- modeset_prepare

    // What modeset_setup_dev leaves behind when it succeeds: the device holds what is new, and is not on the list yet.
    ghost predicate Gained(dev: Device, dumbs: set<nat>, fbs: map<nat, nat>)
      reads dev`bufs, kernel
    {
      && Equipped(dev, kernel) && kernel.maps == kernel.dumbs == dumbs + dev.Handles() && dev.Handles() !! dumbs
      && dev.bufs[0].fb !in fbs && dev.bufs[1].fb !in fbs
      && kernel.fbs == fbs[dev.bufs[0].fb := dev.bufs[0].handle][dev.bufs[1].fb := dev.bufs[1].handle]
    }

    ghost predicate Untouched(dev: Device)
      reads dev
    {
      !dev.pflipPending && !dev.cleanup && dev.frontBuf == 0 && dev.savedFb == 0
    }

    // An equipped device joins the protocol.
    ghost method Admit(dev: Device)
      requires Flipping() && FreedOk() && Idle() && Equipped(dev, kernel) && Untouched(dev) && dev !in live
      requires forall d :: d in live ==> Separate(d, dev)
      requires kernel.fbs[dev.bufs[0].fb] != kernel.fbs[dev.bufs[1].fb]
      modifies this`live, this`known
      ensures live == known == old(live) + {dev} && Flipping() && FreedOk() && Idle()
    {
      live, known := live + {dev}, known + {dev};
      assert kernel.faults == {};
      forall d | d in known
        ensures InStep(d)
      {
        assert d != dev ==> old(InStep(d));
      }
    }

    ghost method Credit(ds: set<Device>, dev: Device, dumbs: set<nat>, fbs: map<nat, nat>)
      requires Balanced(ds, dumbs, fbs) && dev !in ds && Gained(dev, dumbs, fbs)
      modifies this`owner
      ensures Balanced(ds + {dev}, kernel.dumbs, kernel.fbs)
    {
      hide Kernel.Visible;
      assert owner.Keys !! dev.Handles();
      owner := owner[dev.bufs[0].handle := dev][dev.bufs[1].handle := dev];
      forall d | d in ds
        ensures Holds(d, kernel.fbs)
      {
        assert old(Holds(d, fbs));
      }
      assert Holds(dev, kernel.fbs) && dev.Owns(dev.bufs[0].fb) && dev.Owns(dev.bufs[1].fb);
      hide Holds;
      forall f | f in kernel.fbs
        ensures f != 0 && kernel.fbs[f] in owner && owner[kernel.fbs[f]].Owns(f)
      {
        assert f in fbs ==> fbs[f] == kernel.fbs[f] && fbs[f] !in dev.Handles();
      }
    }

    // The device goes to the head of the list.
    method Enlist(ghost ds: set<Device>, dev: Device)
      requires Listing(ds) && dev !in ds && !dev.cleanup && current == null
      modifies this`list, this`devs, dev`next
      ensures Listing(ds + {dev}) && devs == [dev] + old(devs)
    {
      dev.next := list;
      list := dev;
      devs := [dev] + devs;
      forall k | 0 <= k < |devs|
        ensures NextOk(devs, k)
      {
        assert k > 0 ==> old(NextOk(devs, k - 1));
      }
    }

    // Two of each for every device.
    lemma DumbsInPairs(ds: set<Device>, dumbs: set<nat>, fbs: map<nat, nat>)
      requires Balanced(ds, dumbs, fbs)
      ensures |dumbs| == 2 * |ds|
    {
      assert forall d :: d in ds ==> Holds(d, fbs);
      TwoEach(ds, owner, map d | d in ds :: d.bufs[0].handle, map d | d in ds :: d.bufs[1].handle);
      assert |owner| == |owner.Keys|;
    }

    lemma FbsInPairs(ds: set<Device>, dumbs: set<nat>, fbs: map<nat, nat>)
      requires Balanced(ds, dumbs, fbs)
      ensures |fbs| == 2 * |ds|
    {
      var holder := map f | f in fbs :: owner[fbs[f]];
      assert forall d :: d in ds ==> Holds(d, fbs);
      assert forall f :: f in fbs ==> owner[fbs[f]].Owns(f);
      hide Balanced, Holds, Device.Owns;
      TwoEach(ds, holder, map d | d in ds :: d.bufs[0].fb, map d | d in ds :: d.bufs[1].fb);
      assert holder.Keys == fbs.Keys && |holder| == |holder.Keys| && |fbs| == |fbs.Keys|;
    }

    lemma NewIsSeparate(dev: Device, dumbs: set<nat>, fbs: map<nat, nat>)
      requires Listing(live) && Balanced(live, dumbs, fbs) && current == null
      requires dev.crtc !in Crtcs(devs) && Gained(dev, dumbs, fbs)
      ensures forall d :: d in live ==> Separate(d, dev)
      ensures Equipped(dev, kernel) && kernel.fbs[dev.bufs[0].fb] != kernel.fbs[dev.bufs[1].fb]
      ensures kernel.maps == kernel.dumbs
    {
      hide Linked;
      forall d | d in live
        ensures Separate(d, dev)
      {
        assert Holds(d, fbs);
      }
    }

    method Link(dev: Device, ghost dumbs: set<nat>, ghost fbs: map<nat, nat>)
      requires Flipping() && FreedOk() && Listing(live) && Balanced(live, dumbs, fbs) && Idle()
      requires dev !in live && Untouched(dev) && dev.crtc !in Crtcs(devs) && Gained(dev, dumbs, fbs)
      modifies this`list, this`devs, this`live, this`known, this`owner, dev`next
      ensures Inv() && Idle() && devs == [dev] + old(devs) && live == old(live) + {dev}
    {
      hide Flipping, Balanced, Listing, Separate, Gained, Equipped;
      ghost var before := live;
      NewIsSeparate(dev, dumbs, fbs);
      Admit(dev);
      hide Idle;
      Credit(before, dev, dumbs, fbs);
      Enlist(before, dev);
      ZeroIsFree();
    }

    lemma ZeroIsFree()
      requires Balanced(live, kernel.dumbs, kernel.fbs) && Idle() && live == known
      ensures SavedOk()
    {
    }

    // modeset_prepare; a connector that cannot be retrieved is None
    method Prepare(retrieved: bool, crtcs: seq<Word>, connectors: seq<Option<Connector>>) returns (ret: int)
      requires Inv() && Idle() && live == {}
      modifies this`list, this`devs, this`live, this`known, this`owner, kernel`dumbs, kernel`fbs, kernel`maps
      modifies kernel`scanout
      ensures Inv() && Idle() && fresh(live)
      ensures |kernel.dumbs| == |kernel.fbs| == |kernel.maps| == 2 * |devs|
      ensures ret == 0 <==> retrieved
      ensures current == null && (ret != 0 ==> devs == [])
    {
      hide Flipping, Linked, Balanced;
      ret := -1;
      if retrieved {
        for i := 0 to |connectors|
          invariant Inv() && Idle() && fresh(live)
        {
          if connectors[i].Some? {
            PrepareOne(crtcs, connectors[i].value);
          }
        }
        ret := 0;
      }
      DumbsInPairs(live, kernel.dumbs, kernel.fbs);
      FbsInPairs(live, kernel.dumbs, kernel.fbs);
      MembersCount(devs);
    }

    // One round of its loop.
    method PrepareOne(crtcs: seq<Word>, conn: Connector)
      requires Inv() && Idle()
      modifies this`list, this`devs, this`live, this`known, this`owner, kernel`dumbs, kernel`fbs, kernel`maps
      modifies kernel`scanout
      ensures Inv() && Idle() && fresh(live - old(live))
      ensures devs == old(devs) || (|devs| == |old(devs)| + 1 && devs[1..] == old(devs))
    {
      hide Flipping, Linked, Balanced;
      ghost var dumbs, fbs := kernel.dumbs, kernel.fbs;
      var dev := new Device(conn.id);
      var ret := SetupDev(kernel, list, devs, crtcs, conn, dev);
      if ret == 0 {
        Link(dev, dumbs, fbs);
      }
    }

    // ---- the mode-setting loop of main

    // No flip is pending anywhere.
    ghost predicate Quiet()
      reads this`known, this`batch, kernel`queued, kernel`events, known`pflipPending
    {
      && kernel.queued == map[] && kernel.events == [] && batch == []
      && forall d :: d in known ==> !d.pflipPending
    }

    // The CRTC of the device shows none of the program's buffers.
    ghost predicate Foreign(d: Device)
      reads d`crtc, kernel`scanout, kernel`fbs
    {
      d.crtc in kernel.scanout ==> kernel.scanout[d.crtc] !in kernel.fbs
    }

    // The buffer_id of drmModeGetCrtc: zero when nothing is shown.
    function Showing(crtc: nat): nat
      reads kernel`scanout
    {
      if crtc in kernel.scanout then kernel.scanout[crtc] else 0
    }

    // What the CRTC shows is kept for the cleanup.
    method SaveMode(dev: Device)
      requires Accounts() && SavedOk() && live == known && dev in live && Foreign(dev)
      modifies dev`savedFb
      ensures SavedOk() && dev.savedFb == Showing(dev.crtc)
    {
      dev.savedFb := Showing(dev.crtc);
    }

    // The front buffer is shown for the first time.
    method Show(dev: Device)
      requires Flipping() && Quiet() && dev in known
      modifies this`shown, kernel`scanout, kernel`requests
      ensures Flipping() && (shown == old(shown) || shown == old(shown) + {dev})
      ensures kernel.requests == old(kernel.requests) + [AskSet(dev.crtc, dev.Front())]
      ensures kernel.scanout == old(kernel.scanout) || kernel.scanout == old(kernel.scanout)[dev.crtc := dev.Front()]
    {
      StepsOf(dev);
      var ok := kernel.SetCrtc(dev.crtc, dev.bufs[dev.frontBuf].fb);
      if !ok {
        return;
      }
      shown := shown + {dev};
      forall d | d in known
        ensures InStep(d) && (d in shown ==> Shows(d))
      {
        assert old(InStep(d)) && old(d in shown ==> Shows(d));
        assert d != dev ==> Separate(d, dev);
      }
      assert ScanoutOk() by {
        assert dev.Owns(dev.Front());
        forall c, d | c in kernel.scanout && d in known && d.Owns(kernel.scanout[c])
          ensures c == d.crtc
        {
          assert d != dev ==> Separate(d, dev);
        }
      }
      assert Apart() && QueueOk() && EventsOk();
      hide InStep, Shows, EventsOk, ScanoutOk, Apart, QueueOk;
    }

    lemma NthIsLive(k: nat)
      requires Listing(live) && k < |devs|
      ensures devs[k] in live && devs[k].next == Nth(devs, k + 1) && !devs[k].cleanup
    {
      assert NextOk(devs, k) && devs[k] in Members(devs);
    }

    lemma LaterOnes(k: nat)
      requires Listing(live) && k < |devs|
      ensures forall j :: k < j < |devs| ==> devs[j] in live && devs[j] != devs[k]
    {
      hide Linked;
      assert forall j :: k < j < |devs| ==> devs[j] in Members(devs);
    }

    lemma CrtcsDiffer(d: Device, e: Device)
      requires Flipping() && d in known && e in known && d != e
      ensures d.crtc != e.crtc
    {
      assert Separate(d, e);
    }

    // One round of the loop of main.
    method SetOne(dev: Device)
      requires Flipping() && Quiet() && Accounts() && SavedOk() && live == known && dev in live && Foreign(dev)
      modifies dev`savedFb, this`shown, kernel`scanout, kernel`requests
      ensures Flipping() && SavedOk() && dev.savedFb == old(Showing(dev.crtc))
      ensures kernel.requests == old(kernel.requests) + [AskSet(dev.crtc, dev.Front())]
      ensures forall d :: d in live && d != dev ==>
        Showing(d.crtc) == old(Showing(d.crtc)) && Foreign(d) == old(Foreign(d))
    {
      hide Flipping, Balanced;
      SaveMode(dev);
      Show(dev);
      forall d | d in live && d != dev
        ensures Showing(d.crtc) == old(Showing(d.crtc)) && Foreign(d) == old(Foreign(d))
      {
        CrtcsDiffer(dev, d);
      }
    }

    lemma BeforeModes()
      requires Inv() && Idle()
      ensures Quiet() && live == known && list == Nth(devs, 0)
      ensures forall j :: 0 <= j < |devs| ==> Foreign(devs[j])
    {
    }

    // The loop of main over the list.
    method SetModes()
      requires Inv() && Idle()
      modifies live`savedFb, this`shown, kernel`scanout, kernel`requests
      ensures Inv() && Quiet() && |kernel.requests| == |old(kernel.requests)| + |devs|
      ensures forall k :: 0 <= k < |devs| ==> devs[k].savedFb == old(Showing(devs[k].crtc))
      ensures forall k :: 0 <= k < |devs| ==>
        kernel.requests[|old(kernel.requests)| + k] == AskSet(devs[k].crtc, devs[k].Front())
    {
      hide Flipping, Listing, Accounts, SavedOk, FreedOk, Idle, Quiet, Device.Front;
      BeforeModes();
      var iter := list;
      ghost var k := 0;
      while iter != null
        invariant 0 <= k <= |devs| && iter == Nth(devs, k)
        invariant Flipping() && SavedOk() && |kernel.requests| == |old(kernel.requests)| + k
        invariant forall j :: 0 <= j < k ==> devs[j].savedFb == old(Showing(devs[j].crtc))
        invariant forall j :: 0 <= j < k ==>
          kernel.requests[|old(kernel.requests)| + j] == AskSet(devs[j].crtc, devs[j].Front())
        invariant forall j :: k <= j < |devs| ==>
          Foreign(devs[j]) && Showing(devs[j].crtc) == old(Showing(devs[j].crtc))
        decreases |devs| - k
      {
        hide Foreign, Showing;
        NthIsLive(k);
        SetOne(iter);
        LaterOnes(k);
        iter, k := iter.next, k + 1;
      }
    }

    lemma HeadOf()
      requires Listing(live)
      ensures list == Nth(devs, 0)
    {
    }

    // ---- modeset_draw

    // Every output is drawn once.
    method DrawAll()
      requires Inv() && Quiet() && freed == {}
      modifies live`frontBuf, live`pflipPending
      modifies kernel`queued, kernel`scanout, kernel`events, kernel`faults, kernel`requests
      ensures Inv() && batch == [] && |kernel.requests| == |old(kernel.requests)| + |devs|
      ensures forall k :: 0 <= k < |devs| ==>
        kernel.requests[|old(kernel.requests)| + k] == AskFlip(devs[k].crtc, old(devs[k].Back()))
    {
      hide Flipping, Linked, Balanced, Accounts, SavedOk;
      var iter := list;
      ghost var k := 0;
      HeadOf();
      QuietList();
      while iter != null
        invariant 0 <= k <= |devs| && iter == Nth(devs, k)
        invariant Flipping() && |kernel.requests| == |old(kernel.requests)| + k
        invariant forall j :: 0 <= j < k ==>
          kernel.requests[|old(kernel.requests)| + j] == AskFlip(devs[j].crtc, old(devs[j].Back()))
        invariant forall j :: k <= j < |devs| ==> devs[j].frontBuf == old(devs[j].frontBuf)
        invariant forall j :: k <= j < |devs| ==> !devs[j].pflipPending
        decreases |devs| - k
      {
        NthIsLive(k);
        var ok := DrawDev(iter);
        Interrupts();
        iter, k := iter.next, k + 1;
      }
    }

    lemma QuietList()
      requires Inv() && Quiet() && freed == {}
      ensures live == known && forall j :: 0 <= j < |devs| ==> devs[j] in live && !devs[j].pflipPending
    {
      assert forall j :: 0 <= j < |devs| ==> devs[j] in Members(devs);
    }

    // Then the loop handles events until it is left. A failing drmHandleEvent is ignored.
    method Draw()
      requires Inv() && Quiet() && freed == {}
      modifies this`batch, live`frontBuf, live`pflipPending
      modifies kernel`queued, kernel`scanout, kernel`events, kernel`faults, kernel`requests
      ensures Inv() && batch == []
    {
      hide Flipping, Linked, Balanced, Accounts, Listing, SavedOk;
      DrawAll();
      var rounds: nat :| 0 <= rounds;
      for i := 0 to rounds
        invariant Flipping() && FreedOk() && batch == []
      {
        var ret, stray := HandleEvent();
      }
    }

    // ---- modeset_cleanup

    // The kernel still owes the program a flip or an event for the device.
    ghost predicate Outstanding(d: Device)
      reads this`batch, kernel`queued, kernel`events
    {
      d in Pending() || exists c :: c in kernel.queued && kernel.queued[c].dev == d
    }

    // The pending flag is true exactly while something is outstanding.
    lemma PendingIsOutstanding(d: Device)
      requires Flipping() && d in known
      ensures d.pflipPending <==> Outstanding(d)
    {
      hide EventsOk, ScanoutOk, ShownOk, Apart;
      assert InStep(d);
    }

    // The device leaves the protocol.
    ghost method Release(dev: Device)
      requires Flipping() && dev in known && !dev.pflipPending
      modifies this`known
      ensures Flipping() && known == old(known) - {dev} && |dev.bufs| == 2
      ensures forall d :: d in known ==> d.crtc != dev.crtc && !d.Owns(dev.bufs[0].fb) && !d.Owns(dev.bufs[1].fb)
    {
      PendingIsOutstanding(dev);
      StepsOf(dev);
      known := known - {dev};
      forall d | d in known
        ensures InStep(d) && (d in shown ==> Shows(d))
        ensures d.crtc != dev.crtc && !d.Owns(dev.bufs[0].fb) && !d.Owns(dev.bufs[1].fb)
      {
        assert old(InStep(d)) && old(d in shown ==> Shows(d)) && old(Separate(d, dev));
        assert dev.Owns(dev.bufs[0].fb) && dev.Owns(dev.bufs[1].fb);
      }
    }

    // A CRTC that no device uses any more goes back to what it showed before.
    method Restore(dev: Device)
      requires Flipping() && forall d :: d in known ==> d.crtc != dev.crtc && !d.Owns(dev.savedFb)
      modifies kernel`scanout, kernel`requests
      ensures Flipping() && kernel.requests == old(kernel.requests) + [AskSet(dev.crtc, dev.savedFb)]
    {
      var ok := kernel.SetCrtc(dev.crtc, dev.savedFb);
      forall d | d in known
        ensures InStep(d) && (d in shown ==> Shows(d))
      {
        assert old(InStep(d)) && old(d in shown ==> Shows(d));
      }
    }

    // Destroying a buffer that is not of a device whose CRTC the program has set.
    method Destroy(buf: Buf)
      requires Flipping() && forall d :: d in known && d in shown ==> !d.Owns(buf.fb)
      modifies kernel`dumbs, kernel`fbs, kernel`maps, kernel`scanout
      ensures Flipping()
      ensures kernel.dumbs == old(kernel.dumbs) - {buf.handle} && kernel.maps == old(kernel.maps) - {buf.handle}
      ensures kernel.fbs == old(kernel.fbs) - {buf.fb}
    {
      kernel.DestroyFb(buf);
      forall d | d in known
        ensures InStep(d) && (d in shown ==> Shows(d))
      {
        assert old(InStep(d)) && old(d in shown ==> Shows(d)) && d.Owns(d.Front()) && d.Owns(d.Back());
      }
    }

    // The books without the device.
    ghost method Debit(ds: set<Device>, dev: Device, dumbs: set<nat>, fbs: map<nat, nat>)
      requires Balanced(ds, dumbs, fbs) && dev in ds
      modifies this`owner
      ensures |dev.bufs| == 2 && Balanced(ds - {dev}, dumbs - dev.Handles(), fbs - {dev.bufs[0].fb, dev.bufs[1].fb})
    {
      assert Holds(dev, fbs);
      owner := owner - dev.Handles();
      forall d | d in ds - {dev}
        ensures Holds(d, fbs - {dev.bufs[0].fb, dev.bufs[1].fb})
      {
        assert old(Holds(d, fbs));
      }
    }

    lemma SavedIsForeign(dev: Device)
      requires Accounts() && SavedOk() && dev in live
      ensures forall d :: d in known ==> !d.Owns(dev.savedFb)
      ensures forall d :: d in live ==> !dev.Owns(d.savedFb)
      ensures |dev.bufs| == 2
    {
      assert forall d :: d in live ==> Holds(d, kernel.fbs);
    }

    ghost method Leave(dev: Device)
      requires SavedOk() && forall d :: d in live ==> !dev.Owns(d.savedFb)
      modifies this`live
      ensures live == old(live) - {dev} && SavedOk()
    {
      live := live - {dev};
    }

    // Both buffers go, and with them the books of the device, which is freed.
    method Dispose(dev: Device)
      requires Flipping() && Accounts() && SavedOk() && dev in live && dev !in shown * known
      requires forall d :: d in known && d != dev ==>
        |dev.bufs| == 2 && !d.Owns(dev.bufs[0].fb) && !d.Owns(dev.bufs[1].fb)
      modifies this`live, this`freed, this`owner, kernel`dumbs, kernel`fbs, kernel`maps, kernel`scanout
      ensures Flipping() && Accounts() && SavedOk() && live == old(live) - {dev} && freed == old(freed) + {dev}
      ensures kernel.dumbs == old(kernel.dumbs - dev.Handles())
    {
      hide Flipping, Balanced, Holds, Device.Owns;
      ghost var before, dumbs, fbs := live, kernel.dumbs, kernel.fbs;
      SavedIsForeign(dev);
      Destroy(dev.bufs[1]);
      Destroy(dev.bufs[0]);
      assert kernel.fbs == fbs - {dev.bufs[0].fb, dev.bufs[1].fb};
      assert kernel.dumbs == kernel.maps == dumbs - dev.Handles();
      assert SavedOk();
      Leave(dev);
      freed := freed + {dev};
      Debit(before, dev, dumbs, fbs);
    }

    // The tail of the loop of modeset_cleanup when nothing is pending: the CRTC is restored before the device goes.
    method RetireClean(dev: Device)
      requires Flipping() && Accounts() && SavedOk() && FreedOk() && dev in live && !dev.pflipPending
      modifies this`live, this`known, this`freed, this`owner
      modifies kernel`dumbs, kernel`fbs, kernel`maps, kernel`scanout, kernel`requests
      ensures Flipping() && Accounts() && SavedOk() && FreedOk()
      ensures live == old(live) - {dev} && known == old(known) - {dev} && freed == old(freed) + {dev}
      ensures kernel.requests == old(kernel.requests) + [AskSet(dev.crtc, dev.savedFb)]
      ensures kernel.dumbs == old(kernel.dumbs - dev.Handles())
    {
      hide Flipping, Balanced, Holds, Device.Owns;
      SavedIsForeign(dev);
      Release(dev);
      Restore(dev);
      Dispose(dev);
    }

    // And when the wait was given up: the device is freed while the kernel still holds its address.
    method RetirePending(dev: Device)
      requires Flipping() && Accounts() && SavedOk() && FreedOk() && dev in live && dev.pflipPending
      modifies this`live, this`shown, this`freed, this`owner, kernel`dumbs, kernel`fbs, kernel`maps, kernel`scanout
      ensures Flipping() && Accounts() && SavedOk() && FreedOk()
      ensures live == old(live) - {dev} && freed == old(freed) + {dev}
      ensures kernel.dumbs == old(kernel.dumbs - dev.Handles())
    {
      hide Flipping, Balanced, Holds, Device.Owns;
      Conceal(dev);
      Dispose(dev);
    }

    // Nothing is promised any more about what the CRTC of the device shows.
    ghost method Conceal(dev: Device)
      requires Flipping() && dev in known
      modifies this`shown
      ensures Flipping() && shown == old(shown) - {dev} && |dev.bufs| == 2
      ensures forall d :: d in known && d != dev ==> !d.Owns(dev.bufs[0].fb) && !d.Owns(dev.bufs[1].fb)
    {
      StepsOf(dev);
      shown := shown - {dev};
      forall d | d in known && d != dev
        ensures !d.Owns(dev.bufs[0].fb) && !d.Owns(dev.bufs[1].fb)
      {
        assert Separate(d, dev) && dev.Owns(dev.bufs[0].fb) && dev.Owns(dev.bufs[1].fb);
      }
    }

    // The tail of the loop of modeset_cleanup. Something is still outstanding for the freed device exactly when the
    // wait was given up.
    method Retire(dev: Device)
      requires Inv() && current == dev && batch == [] && dev in live
      modifies this`current, this`live, this`known, this`shown, this`freed, this`owner
      modifies kernel`dumbs, kernel`fbs, kernel`maps, kernel`scanout, kernel`requests
      ensures Inv() && current == null && live == old(live) - {dev} && freed == old(freed) + {dev}
      ensures Outstanding(dev) <==> old(dev.pflipPending)
      ensures known == old(known) - if old(dev.pflipPending) then {} else {dev}
      ensures kernel.requests == old(kernel.requests)
              + if old(dev.pflipPending) then [] else [AskSet(dev.crtc, dev.savedFb)]
      ensures kernel.dumbs == old(kernel.dumbs - dev.Handles()) && kernel.maps == kernel.dumbs
    {
      hide Flipping, Linked, Balanced, Outstanding;
      PendingIsOutstanding(dev);
      if dev.pflipPending {
        RetirePending(dev);
      } else {
        RetireClean(dev);
      }
      current := null;
    }

    // The head of the list becomes the device under cleanup.
    method TakeFirst() returns (dev: Device)
      requires Inv() && current == null && list != null
      modifies this`list, this`current, this`devs, list`cleanup
      ensures Inv() && dev == old(list) && current == dev && dev in live && dev.cleanup
      ensures old(devs) != [] && devs == old(devs)[1..]
    {
      hide Flipping, Balanced;
      dev := list;
      NthIsLive(0);
      ghost var before := devs;
      list := dev.next;
      current := dev;
      devs := devs[1..];
      dev.cleanup := true;
      forall k | 0 <= k < |devs|
        ensures NextOk(devs, k)
      {
        assert old(NextOk(devs, k + 1));
      }
      forall d | d in live
        ensures d in devs || d == dev
      {
        WithoutFirst(before, d);
      }
      WithoutFirst(before, dev);
    }

    // The wait of modeset_cleanup. The run may also be observed in the middle of it.
    method Wait(dev: Device) returns (end: Waited)
      requires Inv() && current == dev && dev in live && batch == []
      modifies this`batch, this`failed, known`frontBuf, known`pflipPending
      modifies kernel`queued, kernel`scanout, kernel`events, kernel`faults, kernel`requests
      ensures if end == Stray then kernel.faults == {StrayEvent} && known != live else Inv() && batch == []
      ensures failed == (old(failed) || end == GivenUp)
      ensures end == Done ==> !dev.pflipPending
      ensures end == GivenUp ==> dev.pflipPending
    {
      hide Flipping, Listing, Balanced;
      var rounds: nat :| 0 <= rounds;
      while dev.pflipPending
        invariant Inv() && batch == [] && failed == old(failed)
        decreases rounds
      {
        if rounds == 0 {
          return Going;
        }
        var ret, stray := HandleEvent();
        if stray {
          return Stray;
        }
        if ret != 0 {
          failed := true;
          return GivenUp;
        }
        rounds := rounds - 1;
      }
      end := Done;
    }

    lemma FirstIsIn(s: seq<Device>, ds: set<Device>)
      requires forall d :: d in s ==> d in ds
      ensures s != [] ==> s[0] in ds
    {
    }

    lemma HeadIsLive()
      requires Inv() && list != null
      ensures list in live
    {
      NthIsLive(0);
    }

    // Something the kernel still owes the program.
    ghost predicate Owed()
      reads kernel`queued, kernel`events
    {
      kernel.queued != map[] || kernel.events != []
    }

    // When no device is left, the books are empty, and the kernel owes something exactly for the devices that were
    // given up.
    lemma NothingLeft()
      requires Inv() && list == null && current == null && batch == []
      ensures live == {} && kernel.dumbs == kernel.maps == {} && kernel.fbs == map[]
      ensures Owed() <==> known != live
    {
      assert devs == [] && live == {} && owner == map[];
      hide AllInStep, Apart, ScanoutOk, ShownOk, Listing, Accounts, SavedOk;
      FirstIsIn(kernel.events, known);
      forall d | d in known
        ensures Owed()
      {
        assert d !in live && d in freed;
        PendingIsOutstanding(d);
        assert Pending() == kernel.events;
      }
    }

    // modeset_cleanup; the run ends early when a handler meets a freed device
    method Cleanup() returns (outcome: Outcome)
      requires Inv() && batch == [] && current == null && freed == {} && !failed
      modifies this`list, this`current, this`batch, this`freed, this`failed
      modifies this`devs, this`live, this`known, this`shown, this`owner, known, kernel
      ensures outcome != NotPrepared
      ensures kernel.faults == if outcome == Strayed then {StrayEvent} else {}
      ensures outcome == Strayed ==> failed
      ensures outcome == StillWaiting ==> Inv()
      ensures outcome == Finished ==> live == {} && kernel.dumbs == kernel.maps == {} && kernel.fbs == map[]
      ensures outcome == Finished ==> (Owed() <==> failed)
    {
      hide Inv, Outstanding, Owed;
      outcome := Finished;
      ghost var all := known;
      SameAtFirst();
      while list != null
        invariant Inv() && batch == [] && current == null && known <= all
        invariant live <= known && (failed <==> known != live)
        decreases |devs|
      {
        HeadIsLive();
        var dev := TakeFirst();
        var end := Wait(dev);
        match end {
          case Stray => return Strayed;
          case Going => NoFaults(); return StillWaiting;
          case Done | GivenUp =>
            StillKnown();
            SameWithout(known, live, dev);
            Retire(dev);
            StillKnown();
        }
      }
      NothingLeft();
      NoFaults();
    }

    lemma SameAtFirst()
      requires Inv() && freed == {}
      ensures live == known
    {
    }

    lemma SameWithout(a: set<Device>, b: set<Device>, d: Device)
      requires d in a && d in b
      ensures a - {d} == b - {d} <==> a == b
    {
      assert a == a - {d} + {d} && b == b - {d} + {d};
    }

    lemma StillKnown()
      requires Inv()
      ensures live <= known
    {
    }

    lemma NoFaults()
      requires Inv()
      ensures kernel.faults == {}
    {
    }

    // ---- main

    // The program as a whole, whatever the kernel does. No buffer is written while it is visible, and no device
    // under cleanup is drawn. A handler meets a freed device only after a read of the cleanup has failed. A run to
    // the end returns all that it was handed, and leaves a flip or an event behind exactly when a read of the cleanup
    // has failed.
    method Run(retrieved: bool, crtcs: seq<Word>, connectors: seq<Option<Connector>>) returns (outcome: Outcome)
      requires Inv() && Idle() && live == {} && !failed
      modifies this, kernel
      ensures kernel.faults == if outcome == Strayed then {StrayEvent} else {}
      ensures outcome == Strayed ==> failed
      ensures outcome == NotPrepared <==> !retrieved
      ensures outcome in {Finished, NotPrepared} ==> kernel.dumbs == kernel.maps == {} && kernel.fbs == map[]
      ensures outcome in {Finished, NotPrepared} ==> (Owed() <==> failed)
    {
      hide Inv, Idle, Owed;
      FreshIsIdle();
      var ret := Prepare(retrieved, crtcs, connectors);
      FreshIsIdle();
      if ret != 0 {
        SameAtFirst();
        NoneListed();
        NothingLeft();
        NoFaults();
        return NotPrepared;
      }
      SetModes();
      Draw();
      outcome := Cleanup();
    }

    lemma FreshIsIdle()
      requires Inv() && Idle()
      ensures freed == {} && live == known && batch == [] && current == null
    {
    }

    lemma NoneListed()
      requires Inv() && devs == []
      ensures list == null
    {
    }
  }

  // ---- a handler on a freed device

  // A device with the buffers n and n + 1 on the CRTC n, after a flip from the first to the second was taken.
  ghost predicate Waits(d: Device, n: nat)
    reads d
  {
    && d.bufs == [Buf(1, 1, n, n), Buf(1, 1, n + 1, n + 1)] && d.frontBuf == 1 && d.crtc == n
    && d.pflipPending && !d.cleanup && d.savedFb == 0
  }

  method Waiting(n: Word) returns (d: Device)
    ensures fresh(d) && Waits(d, n) && d.next == null
  {
    d := new Device(n);
    d.bufs, d.frontBuf, d.crtc := [Buf(1, 1, n, n), Buf(1, 1, n + 1, n + 1)], 1, n;
    d.pflipPending := true;
  }

  ghost predicate Listed(p: Program, d: Device, e: Device)
    reads p
  {
    && p.list == d && p.devs == [d, e] && p.live == p.known == p.shown == {d, e} && p.freed == {}
    && p.current == null && p.batch == [] && p.owner == map[1 := d, 2 := d, 3 := e, 4 := e]
  }

  // What the program asked for while both CRTCs were set and both first flips taken, and where that has left the
  // kernel.
  ghost predicate Flips(k: Kernel, d: Device, e: Device)
    reads k
  {
    && k.dumbs == k.maps == {1, 2, 3, 4} && k.fbs == map[1 := 1, 2 := 2, 3 := 3, 4 := 4]
    && k.scanout == map[1 := 1, 3 := 3] && k.queued == map[1 := Flip(2, d), 3 := Flip(4, e)]
    && k.events == [] && k.faults == {} && k.requests == [AskSet(1, 1), AskSet(3, 3), AskFlip(1, 2), AskFlip(3, 4)]
  }

  // Two such devices are listed: the state that drawing each output once leaves when no call fails and no blank comes.
  ghost predicate BothWait(p: Program, d: Device, e: Device)
    reads p, p.kernel, d, e
  {
    && d != e && Waits(d, 1) && Waits(e, 3) && d.next == e && e.next == null
    && Listed(p, d, e) && Flips(p.kernel, d, e)
  }

  lemma BothFlipping(p: Program, d: Device, e: Device)
    requires BothWait(p, d, e)
    ensures p.Flipping()
  {
  }

  lemma BothAccounted(p: Program, d: Device, e: Device)
    requires BothWait(p, d, e)
    ensures p.Accounts() && p.SavedOk() && p.FreedOk()
  {
  }

  lemma BothListed(p: Program, d: Device, e: Device)
    requires BothWait(p, d, e)
    ensures p.Listing(p.live)
  {
  }

  method TakeFlips(kernel: Kernel, d: Device, e: Device)
    modifies kernel
    ensures Flips(kernel, d, e)
  {
    kernel.dumbs, kernel.maps, kernel.fbs := {1, 2, 3, 4}, {1, 2, 3, 4}, map[1 := 1, 2 := 2, 3 := 3, 4 := 4];
    kernel.scanout, kernel.queued := map[1 := 1, 3 := 3], map[1 := Flip(2, d), 3 := Flip(4, e)];
    kernel.events, kernel.faults := [], {};
    kernel.requests := [AskSet(1, 1), AskSet(3, 3), AskFlip(1, 2), AskFlip(3, 4)];
  }

  method TwoWaiting(kernel: Kernel) returns (p: Program, d: Device, e: Device)
    modifies kernel
    ensures fresh(p) && p.kernel == kernel && fresh(d) && fresh(e) && BothWait(p, d, e)
  {
    hide Waits, Flips;
    d := Waiting(1);
    e := Waiting(3);
    Follow(d, e);
    TakeFlips(kernel, d, e);
    p := new Program(kernel);
    p.list, p.devs, p.live, p.known, p.shown := d, [d, e], {d, e}, {d, e}, {d, e};
    p.owner := map[1 := d, 2 := d, 3 := e, 4 := e];
  }

  method Follow(d: Device, e: Device)
    requires Waits(d, 1)
    modifies d`next
    ensures Waits(d, 1) && d.next == e
  {
    d.next := e;
  }

  lemma BothKeep(p: Program, d: Device, e: Device)
    requires BothWait(p, d, e)
    ensures p.Inv() && p.batch == [] && p.Pending() == []
    ensures 1 in p.kernel.queued && p.kernel.queued[1].dev == d && 3 in p.kernel.queued && p.kernel.queued[3].dev == e
  {
    hide Waits, Program.Flipping, Program.Listing, Program.Accounts, Program.SavedOk, Program.FreedOk;
    BothFlipping(p, d, e);
    BothAccounted(p, d, e);
    BothListed(p, d, e);
  }

  lemma NothingRead(p: Program)
    requires p.batch == []
    ensures p.Pending() == p.kernel.events
  {
  }

  // Both vertical blanks come, and nobody has read the events.
  method BlanksCome(p: Program, d: Device, e: Device)
    requires BothWait(p, d, e)
    modifies p.kernel`queued, p.kernel`scanout, p.kernel`events
    ensures p.Inv() && p.kernel.events == [d, e]
  {
    hide BothWait, Program.Inv, Program.Pending;
    BothKeep(p, d, e);
    p.Blank(1);
    p.Blank(3);
    NothingRead(p);
  }

  // The read for the first device fails, and it is freed.
  method FreesFirst(kernel: Kernel) returns (p: Program, ghost d: Device)
    modifies kernel
    ensures fresh(p) && p.kernel == kernel && fresh(p.known) && p.list != null && fresh(p.list)
    ensures p.Inv() && p.current == null && p.batch == []
    ensures kernel.events != [] && kernel.events[0] == d && d in p.freed
  {
    hide Program.Flipping, Program.Listing, Program.Accounts, Program.SavedOk, Program.FreedOk, Program.Outstanding;
    hide Waits, Flips;
    var first, second;
    p, first, second := TwoWaiting(kernel);
    BlanksCome(p, first, second);
    d := p.TakeFirst();
    p.failed := true;
    p.Retire(first);
    p.HeadOf();
  }

  /** Then the read for the second device finds the event of the first, and its handler runs on freed memory. */
  method MeetsFreedDevice(kernel: Kernel) returns (stray: bool)
    modifies kernel
    ensures stray && kernel.faults == {StrayEvent}
  {
    hide Program.Flipping, Program.Listing, Program.Accounts, Program.SavedOk, Program.FreedOk;
    ghost var d;
    var p;
    p, d := FreesFirst(kernel);
    var second := p.TakeFirst();
    p.Read(1);
    stray := p.PageFlipEvent();
  }

  // A program that has just started on a device file it has just opened.
  method Start(kernel: Kernel) returns (p: Program)
    requires kernel.dumbs == kernel.maps == {} && kernel.fbs == map[]
    requires kernel.queued == map[] && kernel.events == [] && kernel.faults == {}
    ensures fresh(p) && p.kernel == kernel && p.Inv() && p.Idle() && p.live == {} && !p.failed
  {
    p := new Program(kernel);
  }
}
