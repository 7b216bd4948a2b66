/**
 modeset-vsync.c, the parts below the page-flip protocol: what the kernel hands out and
 shows, the buffers of an output and how a failed step gives everything back, and the
 choice of a CRTC. Every answer of the kernel that the program cannot foresee is chosen
 nondeterministically, so a contract holds for every pattern of failing calls.
 */
module ModesetDevice {
  import opened Optional

  type Word = x: nat | x < 0x1_0000_0000

  const ENOENT := 2
  const EFAULT := 14

  // struct modeset_buf; the mapping is known by the handle it maps
  datatype Buf = Buf(width: nat, height: nat, handle: nat, fb: nat)

  datatype Flip = Flip(fb: nat, dev: Device)

  // A call of drmModePageFlip or drmModeSetCrtc, whether it succeeds or not.
  datatype Request = AskFlip(crtc: nat, fb: nat) | AskSet(crtc: nat, fb: nat)

  // What must never happen: a write to a visible buffer, a handler run on a freed device,
  // a flip queued for a device under cleanup.
  datatype Fault = Tearing | StrayEvent | LateFlip

  // struct modeset_dev
  class Device {
    var next: Device?
    var frontBuf: nat
    var bufs: seq<Buf>
    var conn: Word
    var crtc: Word
    var savedFb: nat                // the buffer of saved_crtc
    var pflipPending: bool
    var cleanup: bool

    // malloc and memset to zero
    constructor (conn: Word)
      ensures next == null && frontBuf == 0 && bufs == [Buf(0, 0, 0, 0), Buf(0, 0, 0, 0)] && this.conn == conn
      ensures crtc == 0 && savedFb == 0 && !pflipPending && !cleanup
    {
      next, frontBuf, bufs, savedFb := null, 0, [Buf(0, 0, 0, 0), Buf(0, 0, 0, 0)], 0;
      this.conn, crtc, pflipPending, cleanup := conn, 0, false, false;
    }

    ghost function Front(): nat
      reads this`bufs, this`frontBuf
    {
      if |bufs| == 2 && frontBuf < 2 then bufs[frontBuf].fb else 0
    }

    ghost function Back(): nat
      reads this`bufs, this`frontBuf
    {
      if |bufs| == 2 && frontBuf < 2 then bufs[1 - frontBuf].fb else 0
    }

    ghost predicate Owns(fb: nat)
      reads this`bufs
    {
      |bufs| == 2 && (fb == bufs[0].fb || fb == bufs[1].fb)
    }

    ghost function Handles(): set<nat>
      reads this`bufs
    {
      if |bufs| == 2 then {bufs[0].handle, bufs[1].handle} else {}
    }
  }

  lemma Unused(s: set<nat>) returns (n: nat)
    ensures forall m :: m in s ==> m < n
    ensures n !in s && n > 0
  {
    n := 1;
    if s != {} {
      var m :| m in s;
      var most := Unused(s - {m});
      n := if m < most then most else m + 1;
      assert forall k :: k in s ==> k == m || k in s - {m};
    }
  }

  /**
   The kernel: what it has handed out, what each CRTC shows, the flips it has queued and the events
   nobody has read.
   */
  class Kernel {
    var dumbs: set<nat>             // dumb buffers, by handle
    var fbs: map<nat, nat>          // framebuffers and the dumb buffers behind them
    var maps: set<nat>              // mapped dumb buffers
    var scanout: map<nat, nat>      // CRTC to framebuffer
    var queued: map<nat, Flip>      // CRTC to pending flip
    var events: seq<Device>         // data pointers of flip events not yet read
    ghost var faults: set<Fault>
    ghost var requests: seq<Request>    // what the program has asked for

    // Scanned out by some CRTC, or queued to be.
    ghost predicate Visible(fb: nat)
      reads this`scanout, this`queued
    {
      (exists c :: c in scanout && scanout[c] == fb) || (exists c :: c in queued && queued[c].fb == fb)
    }

    // ---- showing

    // Writing pixels of a framebuffer.
    method Paint(fb: nat)
      modifies this`faults
      ensures faults == old(faults) + if Visible(fb) then {Tearing} else {}
    {
      faults := faults + if Visible(fb) then {Tearing} else {};
    }

    // drmModePageFlip: refused while a flip is pending, and whenever the kernel likes.
    method PageFlip(crtc: nat, fb: nat, dev: Device) returns (ok: bool)
      modifies this`queued, this`faults, this`requests
      ensures requests == old(requests) + [AskFlip(crtc, fb)]
      ensures ok ==> crtc !in old(queued)
      ensures queued == if ok then old(queued)[crtc := Flip(fb, dev)] else old(queued)
      ensures faults == old(faults) + if ok && dev.cleanup then {LateFlip} else {}
    {
      requests := requests + [AskFlip(crtc, fb)];
      ok := *;
      ok := ok && crtc !in queued;
      if ok {
        queued := queued[crtc := Flip(fb, dev)];
        faults := faults + if dev.cleanup then {LateFlip} else {};
      }
    }

    // A vertical blank carries out the flip queued for the CRTC and makes an event of it.
    method Vblank(crtc: nat)
      requires crtc in queued
      modifies this`queued, this`scanout, this`events
      ensures scanout == old(scanout)[crtc := old(queued)[crtc].fb]
      ensures events == old(events) + [old(queued)[crtc].dev]
      ensures queued == old(queued) - {crtc}
    {
      scanout := scanout[crtc := queued[crtc].fb];
      events := events + [queued[crtc].dev];
      queued := queued - {crtc};
    }

    // drmModeSetCrtc
    method SetCrtc(crtc: nat, fb: nat) returns (ok: bool)
      modifies this`scanout, this`requests
      ensures requests == old(requests) + [AskSet(crtc, fb)]
      ensures scanout == if ok then old(scanout)[crtc := fb] else old(scanout)
    {
      requests := requests + [AskSet(crtc, fb)];
      ok := *;
      if ok {
        scanout := scanout[crtc := fb];
      }
    }

    // ---- handing out: zero, or the errno of the failure

    method CreateDumb() returns (errno: nat, handle: nat)
      modifies this`dumbs
      ensures errno == 0 ==> handle !in old(dumbs) && dumbs == old(dumbs) + {handle}
      ensures errno != 0 ==> dumbs == old(dumbs)
    {
      errno, handle := *, 0;
      if errno == 0 {
        ghost var n := Unused(dumbs);
        handle :| handle !in dumbs;
        dumbs := dumbs + {handle};
      }
    }

    // An identifier is not given out while the old holder of it exists or is shown.
    method AddFb(handle: nat) returns (errno: nat, fb: nat)
      requires handle in dumbs
      modifies this`fbs
      ensures errno == 0 ==> fb != 0 && fb !in old(fbs) && !Visible(fb) && fbs == old(fbs)[fb := handle]
      ensures errno != 0 ==> fbs == old(fbs)
    {
      errno, fb := *, 0;
      if errno == 0 {
        var inUse := fbs.Keys + scanout.Values + set c | c in queued :: queued[c].fb;
        ghost var n := Unused(inUse);
        fb :| fb !in inUse && fb > 0;
        fbs := fbs[fb := handle];
      }
    }

    method MapDumb(handle: nat) returns (errno: nat)
      requires handle in dumbs
    {
      errno := *;
    }

    method Mmap(handle: nat) returns (errno: nat)
      requires handle in dumbs
      modifies this`maps
      ensures maps == if errno == 0 then old(maps) + {handle} else old(maps)
    {
      errno := *;
      if errno == 0 {
        maps := maps + {handle};
      }
    }

    method Munmap(handle: nat)
      modifies this`maps
      ensures maps == old(maps) - {handle}
    {
      maps := maps - {handle};
    }

    // A CRTC that shows the framebuffer is switched off.
    method RmFb(fb: nat)
      modifies this`fbs, this`scanout
      ensures fbs == old(fbs) - {fb}
      ensures scanout == map c | c in old(scanout) && old(scanout)[c] != fb :: old(scanout)[c]
    {
      fbs := fbs - {fb};
      scanout := map c | c in scanout && scanout[c] != fb :: scanout[c];
    }

    method DestroyDumb(handle: nat)
      modifies this`dumbs
      ensures dumbs == old(dumbs) - {handle}
    {
      dumbs := dumbs - {handle};
    }

    // ---- buffers

    // The buffer has a dumb buffer, a framebuffer over it and a mapping of it.
    ghost predicate Backed(buf: Buf)
      reads this`dumbs, this`fbs, this`maps
    {
      buf.handle in dumbs && buf.handle in maps && buf.fb in fbs && fbs[buf.fb] == buf.handle
    }

    // modeset_create_fb: all three, or nothing; the labels err_fb and err_destroy undo what was done
    method CreateFb(buf: Buf) returns (ret: int, made: Buf)
      requires maps <= dumbs
      modifies this`dumbs, this`fbs, this`maps, this`scanout
      ensures scanout == old(scanout)
      ensures ret < 0 ==> dumbs == old(dumbs) && fbs == old(fbs) && maps == old(maps)
      ensures ret >= 0 ==>
        && ret == 0 && made == Buf(buf.width, buf.height, made.handle, made.fb)
        && Backed(made) && !Visible(made.fb) && made.fb != 0
        && made.handle !in old(dumbs) && made.fb !in old(fbs)
        && dumbs == old(dumbs) + {made.handle} && maps == old(maps) + {made.handle}
        && fbs == old(fbs)[made.fb := made.handle]
    {
      made := buf;
      var errno, handle := CreateDumb();
      if errno != 0 {
        return -(errno as int), made;
      }
      made := made.(handle := handle);
      var fb;
      errno, fb := AddFb(handle);
      if errno == 0 {
        made := made.(fb := fb);
        errno := MapDumb(handle);
        if errno == 0 {
          errno := Mmap(handle);
          if errno == 0 {
            return 0, made;
          }
        }
        RmFb(fb);
        assert fbs == old(fbs) && scanout == old(scanout);
      }
      DestroyDumb(handle);
      assert dumbs == old(dumbs);
      ret := -(errno as int);
    }

    // modeset_destroy_fb
    method DestroyFb(buf: Buf)
      modifies this`dumbs, this`fbs, this`maps, this`scanout
      ensures dumbs == old(dumbs) - {buf.handle} && fbs == old(fbs) - {buf.fb} && maps == old(maps) - {buf.handle}
      ensures scanout == map c | c in old(scanout) && old(scanout)[c] != buf.fb :: old(scanout)[c]
    {
      Munmap(buf.handle);
      RmFb(buf.fb);
      DestroyDumb(buf.handle);
    }
  }

  // ---- the choice of a CRTC

  // drmModeEncoder: its current CRTC (0 for none) and the positions of the CRTCs it works with
  datatype Encoder = Encoder(crtcId: Word, possible: set<nat>)

  // drmModeConnector, with what drmModeGetEncoder answers for it: for the encoder it is bound to, and for each of its
  // encoders
  datatype Connector = Connector(id: Word, connected: bool, modes: seq<(nat, nat)>,
                                 bound: Option<Encoder>, encoders: seq<Option<Encoder>>)

  // The CRTCs at position j and after that work with the encoder.
  function Compatible(enc: Encoder, crtcs: seq<Word>, j: nat): seq<Word>
    requires j <= |crtcs|
    decreases |crtcs| - j
  {
    if j == |crtcs| then [] else (if j in enc.possible then [crtcs[j]] else []) + Compatible(enc, crtcs, j + 1)
  }

  function Offered(encoders: seq<Option<Encoder>>, crtcs: seq<Word>): seq<Word>
  {
    if encoders == [] then []
    else (if encoders[0].Some? then Compatible(encoders[0].value, crtcs, 0) else []) + Offered(encoders[1..], crtcs)
  }

  // All CRTCs the connector may use, in order of preference: the one it already has, then those of each encoder.
  function Candidates(conn: Connector, crtcs: seq<Word>): seq<Word>
  {
    var bound := if conn.bound.Some? && conn.bound.value.crtcId != 0 then [conn.bound.value.crtcId] else [];
    bound + Offered(conn.encoders, crtcs)
  }

  // Not used by a listed device, and representable in the signed variable that carries it.
  predicate Free(id: Word, used: set<Word>)
  {
    id !in used && id < 0x8000_0000
  }

  function FirstFree(candidates: seq<Word>, used: set<Word>): Option<Word>
  {
    if candidates == [] then None
    else if Free(candidates[0], used) then Some(candidates[0])
    else FirstFree(candidates[1..], used)
  }

  ghost predicate NoneFree(candidates: seq<Word>, used: set<Word>)
  {
    forall k :: 0 <= k < |candidates| ==> !Free(candidates[k], used)
  }

  lemma FirstFreeSkips(before: seq<Word>, after: seq<Word>, used: set<Word>)
    requires NoneFree(before, used)
    ensures FirstFree(before + after, used) == FirstFree(after, used)
  {
    if before == [] {
      assert before + after == after;
    } else {
      assert (before + after)[1..] == before[1..] + after && (before + after)[0] == before[0];
      FirstFreeSkips(before[1..], after, used);
    }
  }

  /** No CRTC is chosen exactly when no candidate is free, and the chosen one is the first free candidate. */
  lemma {:induction false} FirstFreeExactly(candidates: seq<Word>, used: set<Word>)
    ensures FirstFree(candidates, used) == None <==> NoneFree(candidates, used)
    ensures forall c :: FirstFree(candidates, used) == Some(c) <==>
      exists k :: 0 <= k < |candidates| && candidates[k] == c && Free(c, used) && NoneFree(candidates[..k], used)
  {
    if candidates != [] {
      var rest := candidates[1..];
      FirstFreeExactly(rest, used);
      forall c
        ensures FirstFree(candidates, used) == Some(c) <==>
          exists k :: 0 <= k < |candidates| && candidates[k] == c && Free(c, used) && NoneFree(candidates[..k], used)
      {
        if Free(candidates[0], used) {
          assert NoneFree(candidates[..0], used);
        } else {
          if FirstFree(rest, used) == Some(c) {
            var k :| 0 <= k < |rest| && rest[k] == c && Free(c, used) && NoneFree(rest[..k], used);
            assert candidates[..k + 1] == [candidates[0]] + rest[..k];
            assert candidates[k + 1] == c && NoneFree(candidates[..k + 1], used);
          }
          if k :| 0 <= k < |candidates| && candidates[k] == c && Free(c, used) && NoneFree(candidates[..k], used) {
            assert k > 0 && rest[k - 1] == c;
            assert rest[..k - 1] == candidates[..k][1..];
          }
        }
      }
      if NoneFree(candidates, used) {
        forall k | 0 <= k < |rest|
          ensures !Free(rest[k], used)
        {
          assert rest[k] == candidates[k + 1];
        }
      }
      if NoneFree(rest, used) && !Free(candidates[0], used) {
        forall k | 0 <= k < |candidates|
          ensures !Free(candidates[k], used)
        {
          if k > 0 {
            assert rest[k - 1] == candidates[k];
          }
        }
      }
    }
  }

  // ---- the linked device list

  ghost function Nth(devs: seq<Device>, k: nat): Device?
  {
    if k < |devs| then devs[k] else null
  }

  ghost predicate NextOk(devs: seq<Device>, k: nat)
    requires k < |devs|
    reads devs`next
  {
    devs[k].next == Nth(devs, k + 1)
  }

  ghost predicate Linked(list: Device?, devs: seq<Device>)
    reads devs`next
  {
    list == Nth(devs, 0) && forall k :: 0 <= k < |devs| ==> NextOk(devs, k)
  }

  ghost function Crtcs(devs: seq<Device>): set<Word>
    reads devs`crtc
  {
    set d | d in devs :: d.crtc
  }

  function Signed(x: Word): int
  {
    if x < 0x8000_0000 then x else x - 0x1_0000_0000
  }

  // The search of the list that both halves of modeset_find_crtc contain: the identifier, or a negative number.
  method Claim(list: Device?, ghost devs: seq<Device>, id: Word) returns (crtc: int)
    requires Linked(list, devs)
    ensures Free(id, Crtcs(devs)) ==> crtc == id
    ensures !Free(id, Crtcs(devs)) ==> crtc < 0
  {
    crtc := Signed(id);
    var iter := list;
    ghost var k := 0;
    while iter != null
      invariant 0 <= k <= |devs| && iter == Nth(devs, k)
      invariant forall j :: 0 <= j < k ==> devs[j].crtc != id
      decreases |devs| - k
    {
      if iter.crtc == id {
        assert devs[k].crtc in Crtcs(devs);
        return -1;
      }
      assert NextOk(devs, k);
      iter, k := iter.next, k + 1;
    }
  }

  // The loop over the CRTCs that work with one encoder.
  method FindForEncoder(list: Device?, ghost devs: seq<Device>, enc: Encoder, crtcs: seq<Word>) returns (crtc: int)
    requires Linked(list, devs)
    ensures crtc >= 0 ==> FirstFree(Compatible(enc, crtcs, 0), Crtcs(devs)) == Some(crtc)
    ensures crtc < 0 ==> NoneFree(Compatible(enc, crtcs, 0), Crtcs(devs))
  {
    ghost var seen := [];
    for j := 0 to |crtcs|
      invariant NoneFree(seen, Crtcs(devs))
      invariant seen + Compatible(enc, crtcs, j) == Compatible(enc, crtcs, 0)
    {
      if j in enc.possible {
        crtc := Claim(list, devs, crtcs[j]);
        if crtc >= 0 {
          FirstFreeSkips(seen, Compatible(enc, crtcs, j), Crtcs(devs));
          return;
        }
        seen := seen + [crtcs[j]];
        assert seen + Compatible(enc, crtcs, j + 1) == seen[..|seen| - 1] + Compatible(enc, crtcs, j);
      }
    }
    assert seen + [] == seen;
    crtc := -1;
  }

  // The second half of modeset_find_crtc: every encoder in turn.
  method FindAmongEncoders(list: Device?, ghost devs: seq<Device>, crtcs: seq<Word>, encoders: seq<Option<Encoder>>)
    returns (crtc: int)
    requires Linked(list, devs)
    ensures crtc >= 0 ==> FirstFree(Offered(encoders, crtcs), Crtcs(devs)) == Some(crtc)
    ensures crtc < 0 ==> NoneFree(Offered(encoders, crtcs), Crtcs(devs))
  {
    hide FirstFree, Linked, Compatible, Crtcs;
    ghost var all, used := Offered(encoders, crtcs), Crtcs(devs);
    ghost var seen := [];
    assert encoders[0..] == encoders;
    for i := 0 to |encoders|
      invariant NoneFree(seen, used)
      invariant all == seen + Offered(encoders[i..], crtcs)
    {
      ghost var more := Offered(encoders[i + 1..], crtcs);
      assert encoders[i..][1..] == encoders[i + 1..];
      if encoders[i].Some? {
        ghost var own := Compatible(encoders[i].value, crtcs, 0);
        crtc := FindForEncoder(list, devs, encoders[i].value, crtcs);
        if crtc >= 0 {
          FirstFreeExtends(own, more, used);
          FirstFreeSkips(seen, own + more, used);
          return;
        }
        assert all == (seen + own) + more;
        seen := seen + own;
      }
    }
    assert seen + [] == seen;
    crtc := -1;
  }

  // modeset_find_crtc
  method FindCrtc(list: Device?, ghost devs: seq<Device>, crtcs: seq<Word>, conn: Connector, dev: Device)
    returns (ret: int)
    requires Linked(list, devs) && dev !in devs
    modifies dev`crtc
    ensures ret == 0 || ret == -ENOENT
    ensures ret == 0 ==>
      FirstFree(Candidates(conn, crtcs), Crtcs(devs)) == Some(dev.crtc) && Free(dev.crtc, Crtcs(devs))
    ensures ret == -ENOENT ==> NoneFree(Candidates(conn, crtcs), Crtcs(devs)) && dev.crtc == old(dev.crtc)
  {
    hide Linked, Offered, FirstFree, Compatible;
    ghost var used, offered := Crtcs(devs), Offered(conn.encoders, crtcs);
    ghost var all := Candidates(conn, crtcs);
    ghost var first := if conn.bound.Some? && conn.bound.value.crtcId != 0 then [conn.bound.value.crtcId] else [];
    var crtc := -1;
    if conn.bound.Some? && conn.bound.value.crtcId != 0 {
      crtc := Claim(list, devs, conn.bound.value.crtcId);
      FirstFreeOfOne(first, used);
    }
    if crtc >= 0 {
      FirstFreeExtends(first, offered, used);
    } else {
      crtc := FindAmongEncoders(list, devs, crtcs, conn.encoders);
      FirstFreeSkips(first, offered, used);
    }
    if crtc < 0 {
      return -ENOENT;
    }
    FirstFreeExactly(all, used);
    dev.crtc := crtc;
    ret := 0;
    assert Crtcs(devs) == used;
  }

  lemma FirstFreeOfOne(one: seq<Word>, used: set<Word>)
    requires |one| == 1
    ensures FirstFree(one, used) == if Free(one[0], used) then Some(one[0]) else None
  {
  }

  lemma FirstFreeExtends(first: seq<Word>, more: seq<Word>, used: set<Word>)
    requires FirstFree(first, used).Some?
    ensures FirstFree(first + more, used) == FirstFree(first, used)
    ensures Free(FirstFree(first, used).value, used)
  {
    assert (first + more)[0] == first[0];
    if !Free(first[0], used) {
      assert (first + more)[1..] == first[1..] + more;
      FirstFreeExtends(first[1..], more, used);
    }
  }

  // ---- one output

  // Two buffers of its own that nothing shows, and a CRTC of its own: what a device has when modeset_setup_dev
  // succeeds.
  ghost predicate Equipped(dev: Device, kernel: Kernel)
    reads dev`bufs, kernel
  {
    && |dev.bufs| == 2 && dev.bufs[0].handle != dev.bufs[1].handle
    && kernel.Backed(dev.bufs[0]) && kernel.Backed(dev.bufs[1])
    && !kernel.Visible(dev.bufs[0].fb) && !kernel.Visible(dev.bufs[1].fb)
    && dev.bufs[0].fb != 0 && dev.bufs[1].fb != 0
  }

  // modeset_setup_dev: an equipped device, or an error and nothing taken from the kernel
  method SetupDev(kernel: Kernel, list: Device?, ghost devs: seq<Device>, crtcs: seq<Word>, conn: Connector,
                  dev: Device) returns (ret: int)
    requires Linked(list, devs) && dev !in devs && kernel.maps <= kernel.dumbs && |dev.bufs| == 2
    modifies dev`bufs, dev`crtc, kernel`dumbs, kernel`fbs, kernel`maps, kernel`scanout
    ensures kernel.scanout == old(kernel.scanout)
    ensures ret <= 0
    ensures !conn.connected ==> ret == -ENOENT
    ensures conn.connected && conn.modes == [] ==> ret == -EFAULT
    ensures conn.connected && conn.modes != [] && NoneFree(Candidates(conn, crtcs), Crtcs(devs)) ==> ret == -ENOENT
    ensures ret < 0 ==>
      kernel.dumbs == old(kernel.dumbs) && kernel.fbs == old(kernel.fbs) && kernel.maps == old(kernel.maps)
    ensures ret == 0 ==> Equipped(dev, kernel)
    ensures ret == 0 ==>
      FirstFree(Candidates(conn, crtcs), Crtcs(devs)) == Some(dev.crtc) && Free(dev.crtc, Crtcs(devs))
    ensures ret == 0 ==> conn.modes != [] && forall b :: b in dev.bufs ==> (b.width, b.height) == conn.modes[0]
    ensures ret == 0 ==>
      && kernel.dumbs == old(kernel.dumbs) + dev.Handles() && kernel.maps == old(kernel.maps) + dev.Handles()
      && dev.Handles() !! old(kernel.dumbs) && dev.bufs[0].fb !in old(kernel.fbs) && dev.bufs[1].fb !in old(kernel.fbs)
      && kernel.fbs == old(kernel.fbs)[dev.bufs[0].fb := dev.bufs[0].handle][dev.bufs[1].fb := dev.bufs[1].handle]
  {
    hide FirstFree, Candidates, Linked, NoneFree;
    if !conn.connected {
      return -ENOENT;
    }
    if conn.modes == [] {
      return -EFAULT;
    }
    var (width, height) := conn.modes[0];
    dev.bufs := [dev.bufs[0].(width := width, height := height), dev.bufs[1].(width := width, height := height)];
    FirstFreeExactly(Candidates(conn, crtcs), Crtcs(devs));
    ret := FindCrtc(list, devs, crtcs, conn, dev);
    if ret != 0 {
      return;
    }
    var made;
    ret, made := kernel.CreateFb(dev.bufs[0]);
    if ret != 0 {
      return;
    }
    dev.bufs := dev.bufs[0 := made];
    ret, made := kernel.CreateFb(dev.bufs[1]);
    if ret != 0 {
      kernel.DestroyFb(dev.bufs[0]);
      assert kernel.dumbs == old(kernel.dumbs) && kernel.maps == old(kernel.maps);
      assert kernel.fbs == old(kernel.fbs) && kernel.scanout == old(kernel.scanout);
      return;
    }
    dev.bufs := dev.bufs[1 := made];
  }
}
