// The Flow overlay of the atomic compositor: GBM buffers move from the renderer
// through "pending" to "current", commits write the Flow plane only when its
// framebuffer changes, and commits may fail or finish later.
module FlowBuffers {
  import opened Bytes

  // ----- Buffers and their framebuffers ----------------------------------------

  datatype Plane = Plane(handle: nat, stride: nat, offset: nat)

  /** A GBM buffer as gbm_bo_get_* describes it. */
  datatype Buffer = Buffer(width: nat, height: nat, format: nat, modifier: nat,
                           handle: nat, stride: nat, planes: seq<Plane>)

  datatype FlowKey = FlowKey(width: nat, height: nat, format: nat, planeCount: nat, modifier: nat,
                             handles: seq<nat>, strides: seq<nat>, offsets: seq<nat>)

  /** The first four entries, padded with zeros as a fixed array is. */
  function FourOf(s: seq<nat>): (r: seq<nat>)
    ensures |r| == 4
  {
    seq(4, i requires 0 <= i < 4 => if i < |s| then s[i] else 0)
  }

  function MakeKey(b: Buffer): FlowKey {
    if b.planes != [] then
      FlowKey(b.width, b.height, b.format, if |b.planes| < 4 then |b.planes| else 4, b.modifier,
              FourOf(seq(|b.planes|, i requires 0 <= i < |b.planes| => b.planes[i].handle)),
              FourOf(seq(|b.planes|, i requires 0 <= i < |b.planes| => b.planes[i].stride)),
              FourOf(seq(|b.planes|, i requires 0 <= i < |b.planes| => b.planes[i].offset)))
    else
      FlowKey(b.width, b.height, b.format, 1, b.modifier, FourOf([b.handle]), FourOf([b.stride]), FourOf([0]))
  }

  function FirstHandle(b: Buffer): nat {
    if b.planes != [] then b.planes[0].handle else b.handle
  }

  /** The kernel gives the buffers of one surface different GEM handles. */
  ghost predicate DistinctHandles(surface: set<Buffer>) {
    forall a <- surface, b <- surface :: FirstHandle(a) == FirstHandle(b) ==> a == b
  }

  lemma KeyTellsBuffer(surface: set<Buffer>, a: Buffer, b: Buffer)
    requires DistinctHandles(surface) && a in surface && b in surface && MakeKey(a) == MakeKey(b)
    ensures a == b
  {
    assert MakeKey(a).handles[0] == FirstHandle(a) && MakeKey(b).handles[0] == FirstHandle(b);
  }

  datatype CachedFramebuffer = CachedFramebuffer(key: FlowKey, framebuffer: nat)

  // ----- What GBM and the kernel see -------------------------------------------

  /** The other side of every call: buffers locked by the program, the buffer
      behind each framebuffer, the Flow plane's framebuffer and, while a
      nonblocking commit has not flipped yet, the one it will have. */
  datatype Kernel = Kernel(locked: set<Buffer>, owner: map<nat, Buffer>, shown: nat, flip: Option<nat>,
                           violations: nat, unsafeReleases: nat, flowWrites: nat)
  {
    predicate MayScan(b: Buffer) {
      || (shown in owner && owner[shown] == b)
      || (flip.Some? && flip.value in owner && owner[flip.value] == b)
    }

    function Lock(b: Buffer): Kernel {
      this.(locked := locked + {b}, violations := violations + if b in locked then 1 else 0)
    }

    function Release(b: Buffer): Kernel {
      this.(locked := locked - {b},
            violations := violations + (if b in locked then 0 else 1),
            unsafeReleases := unsafeReleases + (if MayScan(b) then 1 else 0))
    }

    function AddFramebuffer(b: Buffer, fb: nat): Kernel {
      this.(owner := owner[fb := b])
    }

    /** An atomic commit; flow is the Flow plane's new framebuffer, if written. */
    function Commit(flow: Option<nat>, nonblocking: bool, accepted: bool): Kernel {
      var target := if flow.Some? then flow.value else Target();
      var next := this.(violations := violations + if flip.Some? then 1 else 0);
      if !accepted then next
      else
        var written := next.(flowWrites := flowWrites + if flow.Some? then 1 else 0);
        if nonblocking then written.(flip := Some(target)) else written.(shown := target, flip := None)
    }

    function FlipDone(): Kernel {
      this.(shown := Target(), flip := None)
    }

    /** What the plane shows once nothing is outstanding. */
    function Target(): nat {
      if flip.Some? then flip.value else shown
    }
  }

  // ----- What the calls out of the program may answer ----------------------------

  /** eglSwapBuffers, gbm_surface_lock_front_buffer and, for a buffer seen for the
      first time, drmModeAddFB2. */
  datatype Front = NoSurface | SwapFailed | NoFrontBuffer | Front(bo: Buffer, added: Option<nat>)

  /** One turn of the loop that waits for the page-flip event. */
  datatype PollResult = Interrupted | PollFailed | TimedOut | HandlerFailed | OtherEvent | FlipEvent

  datatype CommitAnswers = CommitAnswers(polls: seq<PollResult>, built: bool, accepted: bool)

  /** Does the wait end with the event, rather than an error or the deadline? */
  predicate FlipArrives(polls: seq<PollResult>) {
    && polls != []
    && (polls[0].FlipEvent?
        || ((polls[0].Interrupted? || polls[0].TimedOut? || polls[0].OtherEvent?) && FlipArrives(polls[1..])))
  }

  /** The framebuffer cache is injective, and its ids are the kernel's. */
  ghost predicate CacheMatches(cache: seq<CachedFramebuffer>, owner: map<nat, Buffer>, solidFb: nat,
                               surface: set<Buffer>) {
    && DistinctHandles(surface)
    && (forall fb <- owner :: exists i :: 0 <= i < |cache| && cache[i].framebuffer == fb)
    && (forall i | 0 <= i < |cache| ::
          && cache[i].framebuffer != 0 && cache[i].framebuffer != solidFb
          && cache[i].framebuffer in owner && owner[cache[i].framebuffer] in surface
          && MakeKey(owner[cache[i].framebuffer]) == cache[i].key)
    && (forall i, j | 0 <= i < j < |cache| ::
          cache[i].key != cache[j].key && cache[i].framebuffer != cache[j].framebuffer)
  }

  lemma IdsAreReal(cache: seq<CachedFramebuffer>, owner: map<nat, Buffer>, solidFb: nat, surface: set<Buffer>, fb: nat)
    requires CacheMatches(cache, owner, solidFb, surface) && fb in owner
    ensures fb != 0 && fb != solidFb
  {
  }

  lemma IdsAreInjective(cache: seq<CachedFramebuffer>, owner: map<nat, Buffer>, solidFb: nat, surface: set<Buffer>,
                        a: nat, b: nat)
    requires CacheMatches(cache, owner, solidFb, surface) && a in owner && b in owner && owner[a] == owner[b]
    ensures a == b
  {
    var i :| 0 <= i < |cache| && cache[i].framebuffer == a;
    var j :| 0 <= j < |cache| && cache[j].framebuffer == b;
    assert cache[i].key == cache[j].key;
  }

  lemma SolidIsNew(cache: seq<CachedFramebuffer>, owner: map<nat, Buffer>, surface: set<Buffer>, created: nat)
    requires CacheMatches(cache, owner, 0, surface) && created !in owner
    ensures CacheMatches(cache, owner, created, surface)
  {
  }

  lemma CacheGrows(cache: seq<CachedFramebuffer>, owner: map<nat, Buffer>, solidFb: nat, surface: set<Buffer>,
                   bo: Buffer, fb: nat)
    requires CacheMatches(cache, owner, solidFb, surface) && bo in surface
    requires fb != 0 && fb != solidFb && fb !in owner
    requires forall i | 0 <= i < |cache| :: cache[i].key != MakeKey(bo)
    ensures CacheMatches(cache + [CachedFramebuffer(MakeKey(bo), fb)], owner[fb := bo], solidFb, surface)
  {
    hide MakeKey, DistinctHandles;
    var grown, next := cache + [CachedFramebuffer(MakeKey(bo), fb)], owner[fb := bo];
    forall id <- next ensures exists i :: 0 <= i < |grown| && grown[i].framebuffer == id {
      if id == fb {
        assert grown[|cache|].framebuffer == id;
      } else {
        var i :| 0 <= i < |cache| && cache[i].framebuffer == id;
        assert grown[i].framebuffer == id;
      }
    }
  }

  /** The entry points that commit: present of a decoded DMA-BUF frame, present of
      a frame copied by the CPU, and present_overlay. */
  datatype Kind = Dmabuf | Cpu | Overlay

  class Compositor {
    var cache: seq<CachedFramebuffer>
    var pendingBo: Option<Buffer>
    var pendingFb: nat
    var pendingSolid: bool
    var currentBo: Option<Buffer>
    var currentFb: nat
    var currentSolid: bool
    var solidFb: nat
    var flowPlane: bool
    var modesetCommitted: bool
    var pageFlipPending: bool
    var pageFlipEventReceived: bool
    var vblankWaitEnabled: bool
    const primaryReadback: bool
    // The environment: the surface's buffers and the state behind the calls.
    const surface: set<Buffer>
    var kernel: Kernel
    /** Presents so far that put a solid debug frame over a rendered one and returned
        before the flip. */
    ghost var earlyFlips: nat

    constructor (primaryReadback: bool, surface: set<Buffer>)
      requires DistinctHandles(surface)
      ensures Valid() && Settled() && kernel == Kernel({}, map[], 0, None, 0, 0, 0) && earlyFlips == 0
      ensures this.primaryReadback == primaryReadback && this.surface == surface
      ensures pendingFb == 0 && currentFb == 0 && solidFb == 0 && !vblankWaitEnabled && !modesetCommitted
    {
      this.primaryReadback, this.surface := primaryReadback, surface;
      cache := [];
      pendingBo, pendingFb, pendingSolid := None, 0, false;
      currentBo, currentFb, currentSolid := None, 0, false;
      solidFb, flowPlane, modesetCommitted := 0, false, false;
      pageFlipPending, pageFlipEventReceived, vblankWaitEnabled := false, false, false;
      kernel := Kernel({}, map[], 0, None, 0, 0, 0);
      earlyFlips := 0;
    }

    // ----- Invariant -----------------------------------------------------------

    ghost function Owned(): set<Buffer>
      reads this`pendingBo, this`currentBo
    {
      AsSet(pendingBo) + AsSet(currentBo)
    }

    /** What the cache's injectivity means for a framebuffer known to the kernel. */
    lemma OneIdPerBuffer(fb: nat, other: nat)
      requires CacheMatches(cache, kernel.owner, solidFb, surface) && fb in kernel.owner
      ensures fb != 0 && fb != solidFb
      ensures other in kernel.owner && kernel.owner[other] == kernel.owner[fb] ==> other == fb
    {
      IdsAreReal(cache, kernel.owner, solidFb, surface, fb);
      if other in kernel.owner && kernel.owner[other] == kernel.owner[fb] {
        IdsAreInjective(cache, kernel.owner, solidFb, surface, fb, other);
      }
    }

    ghost predicate Behind(fb: nat, bo: Option<Buffer>)
      reads this`kernel, this`solidFb
    {
      if bo.Some? then fb in kernel.owner && kernel.owner[fb] == bo.value
      else fb == 0 || fb == solidFb
    }

    /** The invariant while a method holds an acquired buffer, about to commit fb. */
    ghost predicate Holding(fb: nat, bo: Option<Buffer>)
      reads this`cache, this`kernel, this`pendingBo, this`pendingFb, this`currentBo, this`currentFb, this`solidFb,
            this`flowPlane, this`modesetCommitted, this`pageFlipPending, this`pageFlipEventReceived
    {
      && CacheMatches(cache, kernel.owner, solidFb, surface)
      && kernel.locked == Owned() + AsSet(bo) && AsSet(bo) !! Owned()
      && (pendingBo.Some? && currentBo.Some? ==> pendingBo != currentBo)
      && Behind(pendingFb, pendingBo) && Behind(currentFb, currentBo)
      && (bo.Some? ==> Behind(fb, bo))
      && (bo.None? ==> fb == currentFb || fb == solidFb != 0)
      && kernel.violations == 0
      && (kernel.shown == 0 || kernel.shown == solidFb || kernel.shown in kernel.owner)
      && pageFlipPending == kernel.flip.Some? && (pageFlipPending ==> !pageFlipEventReceived)
      && (currentFb != 0 ==> modesetCommitted && flowPlane)
      && (primaryReadback ==> currentFb == 0)
    }

    /** What every public method keeps:
        the locked buffers are exactly the pending and the current one;
        the plane shows, or is about to show, the current framebuffer although
        commits write it only on change;
        nothing was locked twice, released unlocked, or committed during a flip. */
    ghost predicate Valid()
      reads this`cache, this`kernel, this`pendingBo, this`pendingFb, this`currentBo, this`currentFb, this`solidFb,
            this`flowPlane, this`modesetCommitted, this`pageFlipPending, this`pageFlipEventReceived
    {
      Holding(currentFb, None) && kernel.Target() == currentFb
    }

    /** No framebuffer other than the current one may still be scanned out. */
    ghost predicate Settled()
      reads this`kernel
    {
      kernel.shown == kernel.Target()
    }

    /** What is released may not be on screen: everything outstanding has flipped, or
        there was nothing on screen before. */
    ghost predicate Safe()
      reads this`kernel
    {
      Settled() || kernel.shown == 0
    }

    /** Is the buffer, if there is one, possibly scanned out? */
    ghost predicate Scanned(bo: Option<Buffer>)
      reads this`kernel
    {
      bo.Some? && kernel.MayScan(bo.value)
    }

    /** An answer GBM and the kernel can give in the present state: the front
        buffer is not locked, a new framebuffer id is not in use. */
    predicate Plausible(front: Front)
      reads this`kernel, this`solidFb
    {
      front.Front? ==>
        && front.bo in surface && front.bo !in kernel.locked
        && (front.added.Some? ==> FreshId(front.added.value))
    }

    predicate FreshId(fb: nat)
      reads this`kernel, this`solidFb
    {
      fb != 0 && fb != solidFb && fb !in kernel.owner
    }

    ghost predicate Cached(bo: Buffer)
      reads this`kernel
    {
      exists fb <- kernel.owner :: kernel.owner[fb] == bo
    }

    /** Does swapping and locking succeed, the framebuffer being known or added? */
    ghost predicate Locks(front: Front)
      reads this`kernel
    {
      front.Front? && (Cached(front.bo) || front.added.Some?)
    }

    /** The overwrite without release in adopt_flow_framebuffer never happens: a
        held buffer is never behind the current framebuffer. */
    lemma HeldIsNotCurrent(fb: nat, bo: Option<Buffer>)
      requires Holding(fb, bo) && bo.Some?
      ensures fb != currentFb && fb != 0
    {
      hide CacheMatches;
      OneIdPerBuffer(fb, currentFb);
    }

    /** A pending buffer is locked and not current: it may be on screen only while the
        screen still shows its framebuffer instead of the current one. */
    lemma PendingOnScreen()
      requires CacheMatches(cache, kernel.owner, solidFb, surface) && pendingBo.Some?
      requires Behind(pendingFb, pendingBo) && Behind(currentFb, currentBo) && kernel.Target() == currentFb
      requires currentBo.Some? ==> pendingBo != currentBo
      ensures Scanned(pendingBo) <==> kernel.shown == pendingFb
    {
      hide CacheMatches;
      OneIdPerBuffer(pendingFb, currentFb);
      OneIdPerBuffer(pendingFb, kernel.shown);
    }

    /** In a safe state only the current buffer may be on screen, so neither the pending
        buffer nor one that is not locked. */
    lemma OthersAreOffScreen(bo: Buffer)
      requires Valid() && Safe() && kernel.MayScan(bo)
      ensures currentBo == Some(bo) && bo in kernel.locked && pendingBo != Some(bo)
    {
      hide CacheMatches;
      if kernel.shown in kernel.owner {
        OneIdPerBuffer(kernel.shown, 0);
      }
      if currentFb in kernel.owner {
        OneIdPerBuffer(currentFb, 0);
      }
    }

    lemma PendingIsOffScreen()
      requires Valid()
      ensures Safe() ==> !Scanned(pendingBo)
    {
      if Safe() && Scanned(pendingBo) {
        OthersAreOffScreen(pendingBo.value);
      }
    }

    lemma HeldIsNew(update: bool, front: Front)
      requires Valid() && Plausible(front)
      ensures Safe() ==> !Scanned(Held(update, front))
    {
      hide Holding;
      if Safe() && Scanned(Held(update, front)) {
        OthersAreOffScreen(Held(update, front).value);
      }
    }

    /** A solid frame that comes first, with nothing rendered before it, meets an empty plane. */
    lemma NothingBeforeSolid(kind: Kind, update: bool)
      requires Valid()
      ensures FlipsToSolid(kind, update) && currentBo.None? ==> currentFb == 0
    {
    }

    lemma RenderedIsReal()
      requires Valid() && pendingBo.Some?
      ensures pendingFb != 0 && pendingFb in kernel.owner
    {
      hide CacheMatches;
      OneIdPerBuffer(pendingFb, 0);
    }

    lemma SolidOnly()
      requires Valid()
      ensures pendingFb != 0 && pendingBo.None? ==> pendingFb == solidFb
    {
    }

    lemma OwnedIsLocked()
      requires Valid()
      ensures kernel.locked == Owned() && kernel.violations == 0
    {
    }

    // ----- Locking ---------------------------------------------------------------

    method FindOrAddFramebuffer(bo: Buffer, added: Option<nat>) returns (ok: bool, fb: nat)
      requires CacheMatches(cache, kernel.owner, solidFb, surface) && bo in surface
      requires added.Some? ==> FreshId(added.value)
      modifies this`cache, this`kernel
      ensures CacheMatches(cache, kernel.owner, solidFb, surface) && ok == (old(Cached(bo)) || added.Some?)
      ensures ok ==> fb in kernel.owner && kernel.owner[fb] == bo
      ensures !ok || old(Cached(bo)) ==> cache == old(cache) && kernel == old(kernel)
      ensures !old(Cached(bo)) && added.Some? ==> fb == added.value && kernel == old(kernel).AddFramebuffer(bo, fb)
    {
      hide MakeKey, DistinctHandles;
      var key := MakeKey(bo);
      for i := 0 to |cache|
        invariant cache == old(cache) && kernel == old(kernel)
        invariant forall k | 0 <= k < i :: cache[k].key != key
      {
        if cache[i].key == key {
          KeyTellsBuffer(surface, bo, kernel.owner[cache[i].framebuffer]);
          return true, cache[i].framebuffer;
        }
      }
      if added.None? {
        return false, 0;
      }
      fb := added.value;
      CacheGrows(cache, kernel.owner, solidFb, surface, bo, fb);
      kernel := kernel.AddFramebuffer(bo, fb);
      cache := cache + [CachedFramebuffer(key, fb)];
      return true, fb;
    }

    method LockFlowFramebuffer(front: Front) returns (ok: bool, fb: nat, bo: Option<Buffer>)
      requires Valid() && Plausible(front)
      modifies this`cache, this`kernel
      ensures ok == old(Locks(front))
      ensures ok ==> bo == Some(front.bo) && Holding(fb, bo) && Scanned(bo) == old(Scanned(Some(front.bo)))
      ensures kernel.owner == if ok && !old(Cached(front.bo)) then old(kernel.owner)[front.added.value := front.bo]
                              else old(kernel.owner)
      ensures !ok ==> bo == None && Valid()
      ensures kernel.shown == old(kernel.shown) && kernel.flip == old(kernel.flip)
      ensures kernel.unsafeReleases == old(kernel.unsafeReleases)
      ensures kernel.flowWrites == old(kernel.flowWrites)
    {
      hide CacheMatches;
      if !front.Front? {
        return false, 0, None;
      }
      kernel := kernel.Lock(front.bo);
      bo := Some(front.bo);
      ok, fb := FindOrAddFramebuffer(front.bo, front.added);
      if !ok {
        kernel := kernel.Release(front.bo);
        bo := None;
      } else {
        OneIdPerBuffer(fb, 0);
      }
    }

    // ----- Publishing --------------------------------------------------------------

    /** The guarded section of both publish methods: a frame that was never shown
        gives way to the new one. */
    method ReplacePending(fb: nat, bo: Option<Buffer>, solid: bool)
      requires Holding(fb, bo) && kernel.Target() == currentFb
      requires bo.None? ==> fb == solidFb
      modifies this`kernel, this`pendingBo, this`pendingFb, this`pendingSolid
      ensures Valid() && pendingFb == fb && pendingBo == bo && pendingSolid == solid
      ensures kernel.shown == old(kernel.shown) && kernel.flip == old(kernel.flip) && kernel.owner == old(kernel.owner)
      ensures kernel.unsafeReleases == old(kernel.unsafeReleases) + if old(Scanned(pendingBo)) then 1 else 0
    {
      hide CacheMatches;
      DropPending(fb, bo);
      if bo.Some? {
        OneIdPerBuffer(fb, 0);
      }
      pendingFb := fb;
      pendingBo := bo;
      pendingSolid := solid;
    }

    method DropPending(fb: nat, bo: Option<Buffer>)
      requires Holding(fb, bo) && kernel.Target() == currentFb
      modifies this`kernel, this`pendingBo, this`pendingFb
      ensures Holding(fb, bo) && kernel.Target() == currentFb && pendingBo == None
      ensures kernel.shown == old(kernel.shown) && kernel.flip == old(kernel.flip) && kernel.owner == old(kernel.owner)
      ensures kernel.unsafeReleases == old(kernel.unsafeReleases) + if old(Scanned(pendingBo)) then 1 else 0
    {
      hide CacheMatches;
      if pendingBo.Some? {
        PendingOnScreen();
        kernel := kernel.Release(pendingBo.value);
        pendingBo := None;
      }
      pendingFb := 0;
    }

    method PublishRendered(front: Front) returns (ok: bool)
      requires Valid() && Plausible(front)
      modifies this`cache, this`kernel, this`pendingBo, this`pendingFb, this`pendingSolid
      ensures Valid() && ok == old(Locks(front))
      ensures ok ==> pendingBo == Some(front.bo) && !pendingSolid
      ensures kernel.owner == if ok && !old(Cached(front.bo)) then old(kernel.owner)[front.added.value := front.bo]
                              else old(kernel.owner)
      ensures !ok ==> pendingBo == old(pendingBo) && pendingFb == old(pendingFb) && pendingSolid == old(pendingSolid)
      ensures kernel.shown == old(kernel.shown) && kernel.flip == old(kernel.flip)
      // The frame given up may still be on screen, but only when a flip is outstanding.
      ensures kernel.unsafeReleases == old(kernel.unsafeReleases) + if ok && old(Scanned(pendingBo)) then 1 else 0
    {
      hide CacheMatches;
      var framebuffer, bo;
      ok, framebuffer, bo := LockFlowFramebuffer(front);
      if !ok {
        return;
      }
      ReplacePending(framebuffer, bo, false);
    }

    /** created is the framebuffer id of the solid buffer if it must be made; 0 if
        that fails. */
    method PublishSolid(created: nat) returns (ok: bool)
      requires Valid() && (created != 0 ==> FreshId(created))
      modifies this`solidFb, this`kernel, this`pendingBo, this`pendingFb, this`pendingSolid
      ensures Valid() && ok == (old(solidFb) != 0 || created != 0)
      ensures ok ==> solidFb == if old(solidFb) != 0 then old(solidFb) else created
      ensures ok ==> pendingFb == solidFb && pendingBo == None && pendingSolid
      ensures !ok ==> solidFb == 0 && pendingBo == old(pendingBo) && pendingFb == old(pendingFb)
      ensures kernel.shown == old(kernel.shown) && kernel.flip == old(kernel.flip) && kernel.owner == old(kernel.owner)
      ensures kernel.unsafeReleases == old(kernel.unsafeReleases) + if ok && old(Scanned(pendingBo)) then 1 else 0
    {
      hide CacheMatches;
      if solidFb == 0 {
        if created == 0 {
          return false;
        }
        SolidIsNew(cache, kernel.owner, surface, created);
        solidFb := created;
      }
      ReplacePending(solidFb, None, true);
      return true;
    }

    // ----- Presenting ----------------------------------------------------------------

    method Acquire(update: bool, front: Front) returns (ok: bool, fb: nat, bo: Option<Buffer>, solid: bool)
      requires Valid() && Plausible(front)
      modifies this`cache, this`kernel, this`pendingBo, this`pendingFb, this`pendingSolid
      ensures ok == (!update || old(Locks(front)))
      ensures ok ==> Holding(fb, bo) && (bo.Some? ==> fb != currentFb)
      ensures !ok ==> Valid()
      ensures kernel.Target() == old(kernel.Target()) && kernel.shown == old(kernel.shown)
        && kernel.flip == old(kernel.flip)
      ensures kernel.unsafeReleases == old(kernel.unsafeReleases)
      ensures kernel.flowWrites == old(kernel.flowWrites)
      ensures update ==> pendingBo == old(pendingBo) && pendingFb == old(pendingFb) && pendingSolid == old(pendingSolid)
      ensures update && ok ==> bo == Some(front.bo) && !solid
      ensures ok ==> Scanned(bo) == old(Scanned(if update then Some(front.bo) else pendingBo))
      ensures !update ==> pendingBo == None && pendingFb == 0 && kernel.owner == old(kernel.owner)
      ensures !update ==>
        (fb, bo, solid) == if old(pendingFb) != 0 then (old(pendingFb), old(pendingBo), old(pendingSolid))
                           else (currentFb, None, currentSolid)
    {
      hide CacheMatches;
      if pendingBo.Some? {
        OneIdPerBuffer(pendingFb, 0);
      }
      fb := currentFb;
      bo := None;
      solid := currentSolid;
      if update {
        solid := false;
        ok, fb, bo := LockFlowFramebuffer(front);
        if ok {
          HeldIsNotCurrent(fb, bo);
        }
        return;
      }
      if pendingFb != 0 {
        fb := pendingFb;
        bo := pendingBo;
        solid := pendingSolid;
        pendingFb := 0;
        pendingBo := None;
        pendingSolid := false;
        if bo.Some? {
          HeldIsNotCurrent(fb, bo);
        }
      }
      ok := true;
    }

    method ReleaseAcquired(fb: nat, bo: Option<Buffer>)
      requires Holding(fb, bo) && kernel.Target() == currentFb
      modifies this`kernel
      ensures Valid() && kernel.shown == old(kernel.shown) && kernel.flip == old(kernel.flip)
        && kernel.owner == old(kernel.owner)
      ensures kernel.unsafeReleases == old(kernel.unsafeReleases) + if old(Scanned(bo)) then 1 else 0
      ensures kernel.flowWrites == old(kernel.flowWrites)
    {
      hide CacheMatches;
      if bo.Some? {
        HeldIsNotCurrent(fb, bo);
        OneIdPerBuffer(fb, currentFb);
        kernel := kernel.Release(bo.value);
      }
    }

    /** After a commit of fb: the plane's target is fb. */
    method Adopt(fb: nat, bo: Option<Buffer>, solid: bool)
      requires Holding(fb, bo) && kernel.Target() == fb
      requires fb != 0 ==> modesetCommitted && flowPlane && !primaryReadback
      modifies this`kernel, this`currentBo, this`currentFb, this`currentSolid
      ensures Valid() && currentFb == fb
      ensures currentBo == if fb == old(currentFb) then old(currentBo) else bo
      ensures currentSolid == if fb == old(currentFb) then old(currentSolid) else solid
      ensures kernel.shown == old(kernel.shown) && kernel.flip == old(kernel.flip) && kernel.owner == old(kernel.owner)
      ensures kernel.unsafeReleases == old(kernel.unsafeReleases)
        + if fb != old(currentFb) && old(currentBo).Some? && old(kernel.MayScan(currentBo.value)) then 1 else 0
      ensures kernel.flowWrites == old(kernel.flowWrites)
    {
      hide CacheMatches;
      if fb == currentFb && bo.None? {
        return;
      }
      if bo.Some? {
        HeldIsNotCurrent(fb, bo);
      }
      if fb != currentFb && currentBo.Some? {
        kernel := kernel.Release(currentBo.value);
      }
      if fb != currentFb || bo.Some? {
        currentFb := fb;
        currentBo := bo;
        currentSolid := solid;
      }
    }

    method WaitForPendingPageFlip(polls: seq<PollResult>) returns (ok: bool)
      requires pageFlipPending == kernel.flip.Some? && (pageFlipPending ==> !pageFlipEventReceived)
      modifies this`kernel, this`pageFlipPending, this`pageFlipEventReceived
      ensures ok == (!old(pageFlipPending) || FlipArrives(polls))
      ensures ok ==> !pageFlipPending && kernel == old(kernel).FlipDone()
      ensures !ok ==> pageFlipPending && !pageFlipEventReceived && kernel == old(kernel)
    {
      if !pageFlipPending {
        return true;
      }
      var k := 0;
      assert polls[0..] == polls;
      while pageFlipPending && k < |polls|
        invariant k <= |polls|
        invariant pageFlipPending ==> !pageFlipEventReceived && kernel == old(kernel)
        invariant pageFlipPending ==> FlipArrives(polls) == FlipArrives(polls[k..])
        invariant !pageFlipPending ==> FlipArrives(polls) && kernel == old(kernel).FlipDone()
      {
        var poll := polls[k];
        assert polls[k..][1..] == polls[k + 1..];
        k := k + 1;
        if poll.PollFailed? {
          return false;
        }
        if poll.Interrupted? || poll.TimedOut? {
          continue;
        }
        if poll.HandlerFailed? {
          return false;
        }
        if poll.FlipEvent? {
          pageFlipEventReceived := true;
          kernel := kernel.FlipDone();
        }
        if pageFlipEventReceived {
          pageFlipPending := false;
        }
      }
      return !pageFlipPending;
    }

    method Commit(fb: nat, nonblockingAllowed: bool, answers: CommitAnswers) returns (ok: bool)
      requires pageFlipPending == kernel.flip.Some? && (pageFlipPending ==> !pageFlipEventReceived)
      requires kernel.violations == 0
      modifies this`kernel, this`pageFlipPending, this`pageFlipEventReceived, this`modesetCommitted
      ensures pageFlipPending == kernel.flip.Some? && (pageFlipPending ==> !pageFlipEventReceived)
      ensures ok == ((old(pageFlipPending) ==> FlipArrives(answers.polls)) && answers.built && answers.accepted)
      ensures modesetCommitted == (old(modesetCommitted) || ok)
      ensures ok ==>
        var writes := fb != 0 && flowPlane && (!old(modesetCommitted) || fb != currentFb);
        kernel == old(kernel).FlipDone().Commit(if writes then Some(fb) else None,
                                                old(modesetCommitted) && vblankWaitEnabled && nonblockingAllowed, true)
      ensures !ok ==>
        kernel == if old(pageFlipPending) && !FlipArrives(answers.polls) then old(kernel) else old(kernel).FlipDone()
    {
      var waited := WaitForPendingPageFlip(answers.polls);
      if !waited {
        return false;
      }
      if !answers.built {
        return false;
      }
      var useNonblocking := modesetCommitted && vblankWaitEnabled && nonblockingAllowed;
      var flow := if fb != 0 && flowPlane && (!modesetCommitted || fb != currentFb) then Some(fb) else None;
      if useNonblocking {
        pageFlipEventReceived := false;
      }
      kernel := kernel.Commit(flow, useNonblocking, answers.accepted);
      if !answers.accepted {
        return false;
      }
      modesetCommitted := true;
      if useNonblocking {
        pageFlipPending := !pageFlipEventReceived;
      }
      return true;
    }

    /** Once nothing is outstanding, a held buffer is not on screen. */
    lemma HeldIsOffScreen(fb: nat, bo: Option<Buffer>)
      requires Holding(fb, bo) && kernel.Target() == currentFb
      ensures Settled() && kernel.flip.None? ==> !Scanned(bo)
    {
      hide CacheMatches;
      if bo.Some? {
        HeldIsNotCurrent(fb, bo);
        OneIdPerBuffer(fb, currentFb);
      }
    }

    /** The current buffer may be on screen exactly when its framebuffer is shown or due. */
    lemma CurrentOnScreen(fb: nat, bo: Option<Buffer>)
      requires Holding(fb, bo)
      ensures Scanned(currentBo) <==>
        currentBo.Some? && (kernel.shown == currentFb || (kernel.flip.Some? && kernel.flip.value == currentFb))
    {
      hide CacheMatches;
      if currentBo.Some? {
        OneIdPerBuffer(currentFb, kernel.shown);
        OneIdPerBuffer(currentFb, kernel.Target());
      }
    }

    /** commit, called while a buffer is held: Flow's framebuffer becomes the plane's
        target, or everything is as after the wait for the flip before. */
    method CommitHeld(fb: nat, bo: Option<Buffer>, nonblockingAllowed: bool, answers: CommitAnswers) returns (ok: bool)
      requires Holding(fb, bo) && kernel.Target() == currentFb
      requires if primaryReadback then fb == 0 else flowPlane
      modifies this`kernel, this`pageFlipPending, this`pageFlipEventReceived, this`modesetCommitted
      ensures Holding(fb, bo)
      ensures ok == ((old(pageFlipPending) ==> FlipArrives(answers.polls)) && answers.built && answers.accepted)
      ensures modesetCommitted == (old(modesetCommitted) || ok)
      ensures kernel.owner == old(kernel.owner) && kernel.unsafeReleases == old(kernel.unsafeReleases)
      ensures ok ==>
        var nonblocking := old(modesetCommitted) && vblankWaitEnabled && nonblockingAllowed;
        && kernel.Target() == fb && (fb != 0 ==> flowPlane && !primaryReadback)
        && kernel.shown == (if nonblocking then currentFb else fb)
          && pageFlipPending == kernel.flip.Some? == nonblocking
      ensures !ok ==> kernel.Target() == currentFb
      ensures !ok ==>
        if old(pageFlipPending) && !FlipArrives(answers.polls) then kernel == old(kernel)
        else Settled() && kernel.flip.None?
      // The Flow plane is written when its framebuffer changes, and on the first commit.
      ensures kernel.flowWrites == old(kernel.flowWrites)
        + if ok && fb != 0 && (!old(modesetCommitted) || fb != old(currentFb)) then 1 else 0
    {
      hide CacheMatches;
      if bo.Some? {
        HeldIsNotCurrent(fb, bo);
      }
      ok := Commit(fb, nonblockingAllowed, answers);
    }

    /** The end of every present method: commit, then keep the acquired buffer or
        give it back. */
    method Show(fb: nat, bo: Option<Buffer>, solid: bool, nonblockingAllowed: bool, answers: CommitAnswers)
      returns (ok: bool)
      requires Holding(fb, bo) && kernel.Target() == currentFb
      requires if primaryReadback then fb == 0 else flowPlane
      modifies this`kernel, this`pageFlipPending, this`pageFlipEventReceived, this`modesetCommitted,
               this`currentBo, this`currentFb, this`currentSolid
      ensures Valid()
      ensures ok == ((old(pageFlipPending) ==> FlipArrives(answers.polls)) && answers.built && answers.accepted)
      ensures kernel.owner == old(kernel.owner)
      ensures ok ==> pageFlipPending == (old(modesetCommitted) && vblankWaitEnabled && nonblockingAllowed)
      ensures !ok ==> currentFb == old(currentFb) && currentBo == old(currentBo) && currentSolid == old(currentSolid)
      ensures ok && fb == old(currentFb) ==>
        currentFb == fb && currentBo == old(currentBo) && currentSolid == old(currentSolid)
      ensures ok && fb != old(currentFb) ==> currentFb == fb && currentBo == bo && currentSolid == solid
      ensures modesetCommitted == (old(modesetCommitted) || ok)
      ensures ok ==>
        var early := old(modesetCommitted) && vblankWaitEnabled && nonblockingAllowed && fb != old(currentFb);
        && (if early then !Settled() && kernel.shown == old(currentFb) else Settled())
        && kernel.unsafeReleases == old(kernel.unsafeReleases) + if early && old(currentBo).Some? then 1 else 0
      // A buffer given back after a wait that failed may still be on screen.
      ensures !ok ==>
        var waitFailed := old(pageFlipPending) && !FlipArrives(answers.polls);
        && (if waitFailed then kernel.shown == old(kernel.shown) && kernel.flip == old(kernel.flip) else Settled())
        && kernel.unsafeReleases == old(kernel.unsafeReleases) + if waitFailed && old(Scanned(bo)) then 1 else 0
      // The Flow plane is written when its framebuffer changes, and on the first commit.
      ensures kernel.flowWrites == old(kernel.flowWrites)
        + if ok && fb != 0 && (!old(modesetCommitted) || fb != old(currentFb)) then 1 else 0
    {
      hide Holding;
      ok := CommitHeld(fb, bo, nonblockingAllowed, answers);
      CurrentOnScreen(fb, bo);
      if !ok {
        HeldIsOffScreen(fb, bo);
        ReleaseAcquired(fb, bo);
        return;
      }
      Adopt(fb, bo, solid);
    }

    /** The call that would put a solid debug frame on the plane and return before
        the flip. */
    ghost predicate FlipsToSolid(kind: Kind, update: bool)
      reads this`modesetCommitted, this`vblankWaitEnabled, this`pendingFb, this`pendingBo, this`currentFb
    {
      && kind.Cpu? && !update && !primaryReadback && modesetCommitted && vblankWaitEnabled
      && pendingFb != 0 && pendingBo.None? && pendingFb != currentFb
    }

    /** The buffer that present is about to show, if it holds one. */
    ghost function Held(update: bool, front: Front): Option<Buffer>
      reads this`kernel, this`pendingBo
    {
      if !update then pendingBo else if Locks(front) then Some(front.bo) else None
    }

    /** The call gives a held buffer back that may still be on screen, because the flip
        before it has not come. */
    ghost predicate GivesUpScanned(update: bool, front: Front, polls: seq<PollResult>)
      reads this`kernel, this`pendingBo, this`pageFlipPending
    {
      pageFlipPending && !FlipArrives(polls) && Scanned(Held(update, front))
    }

    ghost predicate Reaches(videoPlane: bool, planeFound: bool, videoReady: bool)
      reads this`flowPlane
    {
      videoPlane && (primaryReadback || flowPlane || planeFound) && videoReady
    }

    /** Acquire, commit, keep or give back: present with the Flow plane in use. */
    method PresentFlow(kind: Kind, update: bool, front: Front, answers: CommitAnswers) returns (ok: bool)
      requires Valid() && Plausible(front) && !primaryReadback && flowPlane
      modifies this`cache, this`kernel, this`pendingBo, this`pendingFb, this`pendingSolid, this`pageFlipPending,
               this`pageFlipEventReceived, this`modesetCommitted, this`currentBo, this`currentFb, this`currentSolid
      ensures Valid()
      ensures ok == (&& (!update || old(Locks(front)))
                     && (old(pageFlipPending) ==> FlipArrives(answers.polls)) && answers.built && answers.accepted)
      ensures !ok ==> currentFb == old(currentFb) && currentBo == old(currentBo) && currentSolid == old(currentSolid)
      ensures ok && update ==> currentBo == Some(front.bo) && !currentSolid
      ensures !update ==> kernel.owner == old(kernel.owner)
      // The decoder may reuse the previous frame: its successor is on screen.
      ensures ok && !kind.Cpu? ==> !pageFlipPending
      // A commit is left to flip later exactly for a CPU frame that brings no new rendered frame with it.
      ensures ok ==>
        pageFlipPending == (old(modesetCommitted) && vblankWaitEnabled && kind.Cpu? && !update && old(pendingBo).None?)
      ensures ok && !update ==>
        (currentFb, currentBo)
          == if old(pendingFb) != 0 && old(pendingFb) != old(currentFb) then (old(pendingFb), old(pendingBo))
             else (old(currentFb), old(currentBo))
      ensures if !update then pendingFb == 0 && pendingBo == None
              else pendingFb == old(pendingFb) && pendingBo == old(pendingBo)
      ensures modesetCommitted == (old(modesetCommitted) || ok)
      ensures ok ==> if old(FlipsToSolid(kind, update)) then kernel.shown == old(currentFb) else Settled()
      ensures !ok ==> Settled() || (kernel.shown == old(kernel.shown) && kernel.flip == old(kernel.flip))
      ensures kernel.unsafeReleases == old(kernel.unsafeReleases)
        + if ok then (if old(FlipsToSolid(kind, update)) && old(currentBo).Some? then 1 else 0)
          else (if old(GivesUpScanned(update, front, answers.polls)) then 1 else 0)
      // The Flow plane is written when its framebuffer changes, and on the first commit.
      ensures kernel.flowWrites == old(kernel.flowWrites)
        + if ok && currentFb != 0 && (!old(modesetCommitted) || currentFb != old(currentFb)) then 1 else 0
    {
      hide Holding, Cached;
      if pendingBo.Some? {
        RenderedIsReal();
      }
      var acquired, fb, bo, solid := Acquire(update, front);
      if !acquired {
        return false;
      }
      var videoOnlyUpdate := kind.Cpu? && !update && bo.None?;
      ok := Show(fb, bo, solid, videoOnlyUpdate, answers);
    }

    method FlowPlaneFound()
      requires Valid()
      modifies this`flowPlane
      ensures Valid() && flowPlane
    {
      hide CacheMatches;
      flowPlane := true;
    }

    lemma NothingHeld()
      requires Valid()
      ensures primaryReadback ==> Holding(0, None) && currentFb == 0
    {
    }

    /** present when the picture is read back from the primary plane: no Flow plane. */
    method PresentReadback(kind: Kind, update: bool, answers: CommitAnswers) returns (ok: bool)
      requires Valid() && primaryReadback
      modifies this`kernel, this`pageFlipPending, this`pageFlipEventReceived, this`modesetCommitted,
               this`currentBo, this`currentFb, this`currentSolid
      ensures Valid()
      ensures ok == ((old(pageFlipPending) ==> FlipArrives(answers.polls)) && answers.built && answers.accepted)
      ensures kernel.owner == old(kernel.owner) && modesetCommitted == (old(modesetCommitted) || ok)
      ensures currentFb == old(currentFb) && currentBo == old(currentBo) && currentSolid == old(currentSolid)
      ensures ok ==> pageFlipPending == (old(modesetCommitted) && vblankWaitEnabled && kind.Cpu? && !update)
      ensures !old(FlipsToSolid(kind, update))
      ensures ok ==> Settled()
      ensures !ok ==> Settled() || (kernel.shown == old(kernel.shown) && kernel.flip == old(kernel.flip))
      ensures kernel.unsafeReleases == old(kernel.unsafeReleases)
      ensures kernel.flowWrites == old(kernel.flowWrites)
      ensures currentFb == 0
    {
      hide Holding, FlipArrives;
      NothingHeld();
      ok := Show(0, None, false, kind.Cpu? && !update, answers);
    }

    /** The three present methods: they differ in the video buffer they prepare and
        in whether the commit may return before the flip. */
    method Present(kind: Kind, videoPlane: bool, planeFound: bool, videoReady: bool,
                   update: bool, front: Front, answers: CommitAnswers) returns (ok: bool)
      requires Valid() && Plausible(front)
      modifies this
      ensures Valid()
      ensures ok == (&& old(Reaches(videoPlane, planeFound, videoReady))
                     && (primaryReadback || !update || old(Locks(front)))
                     && (old(pageFlipPending) ==> FlipArrives(answers.polls)) && answers.built && answers.accepted)
      ensures !ok || primaryReadback ==>
        currentFb == old(currentFb) && currentBo == old(currentBo) && currentSolid == old(currentSolid)
      ensures ok && !primaryReadback && update ==> currentBo == Some(front.bo) && !currentSolid
      ensures ok && !primaryReadback && !update ==>
        (currentFb, currentBo)
          == if old(pendingFb) != 0 && old(pendingFb) != old(currentFb) then (old(pendingFb), old(pendingBo))
             else (old(currentFb), old(currentBo))
      ensures if old(Reaches(videoPlane, planeFound, videoReady)) && !primaryReadback && !update
              then pendingFb == 0 && pendingBo == None
              else pendingFb == old(pendingFb) && pendingBo == old(pendingBo)
      ensures modesetCommitted == (old(modesetCommitted) || ok)
      ensures vblankWaitEnabled == old(vblankWaitEnabled) && solidFb == old(solidFb)
      ensures !update ==> kernel.owner == old(kernel.owner)
      // The decoder may reuse the previous frame: its successor is on screen.
      ensures ok && !kind.Cpu? ==> !pageFlipPending
      // A commit is left to flip later exactly for a CPU frame that brings no new rendered frame with it.
      ensures ok ==>
        pageFlipPending == (&& old(modesetCommitted) && vblankWaitEnabled && kind.Cpu? && !update
                            && (primaryReadback || old(pendingBo).None?))
      // A buffer that may still be on screen is released in two cases: by a success that
      // flips from a rendered to a solid frame, and by giving up on a flip that is late.
      ensures ok ==> if old(FlipsToSolid(kind, update)) then kernel.shown == old(currentFb) else Settled()
      ensures !ok ==> Settled() || (kernel.shown == old(kernel.shown) && kernel.flip == old(kernel.flip))
      ensures earlyFlips == old(earlyFlips)
        + if ok && old(FlipsToSolid(kind, update)) && old(currentBo).Some? then 1 else 0
      ensures kernel.unsafeReleases == old(kernel.unsafeReleases)
        + if ok then earlyFlips - old(earlyFlips)
          else if old(Reaches(videoPlane, planeFound, videoReady)) && !primaryReadback
                  && old(GivesUpScanned(update, front, answers.polls)) then 1
          else 0
      // The Flow plane is written when its framebuffer changes, and on the first commit.
      ensures kernel.flowWrites == old(kernel.flowWrites)
        + if ok && currentFb != 0 && (!old(modesetCommitted) || currentFb != old(currentFb)) then 1 else 0
    {
      hide Holding, Locks, Plausible, Settled, FlipArrives, FlipsToSolid, GivesUpScanned;
      if !videoPlane {
        return false;
      }
      if !primaryReadback && !flowPlane {
        if !planeFound {
          return false;
        }
        FlowPlaneFound();
      }
      if !videoReady {
        return false;
      }
      if primaryReadback {
        ok := PresentReadback(kind, update, answers);
      } else {
        ghost var early := FlipsToSolid(kind, update) && currentBo.Some?;
        ok := PresentFlow(kind, update, front, answers);
        if ok && early {
          earlyFlips := earlyFlips + 1;
        }
      }
    }

    method SetVblankWaitEnabled(enabled: bool)
      requires Valid()
      modifies this`vblankWaitEnabled
      ensures Valid() && vblankWaitEnabled == enabled
    {
      hide CacheMatches;
      vblankWaitEnabled := enabled;
    }

    /** cleanup, as far as the Flow buffers go: everything locked is released. */
    method Cleanup(polls: seq<PollResult>)
      requires Valid()
      modifies this
      ensures kernel.locked == {} && kernel.violations == 0
      ensures pendingBo == None && currentBo == None && pendingFb == 0 && currentFb == 0
    {
      hide CacheMatches;
      var _ := WaitForPendingPageFlip(polls);
      pendingFb := 0;
      pendingSolid := false;
      if pendingBo.Some? {
        kernel := kernel.Release(pendingBo.value);
        pendingBo := None;
      }
      currentFb := 0;
      currentSolid := false;
      if currentBo.Some? {
        kernel := kernel.Release(currentBo.value);
        currentBo := None;
      }
    }
  }

  ghost function AsSet(bo: Option<Buffer>): set<Buffer> {
    if bo.Some? then {bo.value} else {}
  }

  // ----- Whole runs --------------------------------------------------------------

  datatype Call =
    | CallPublishRendered(front: Front)
    | CallPublishSolid(created: nat)
    | CallPresent(kind: Kind, videoPlane: bool, planeFound: bool, videoReady: bool,
                  update: bool, front: Front, answers: CommitAnswers)
    | CallSetVblankWait(enabled: bool)

  /** Nothing solid is ever published, or no commit ever returns before its flip. */
  ghost predicate NoEarlySolid(calls: seq<Call>, solidFb: nat, vblankWait: bool) {
    || (solidFb == 0 && forall call <- calls :: !call.CallPublishSolid?)
    || (!vblankWait && forall call <- calls :: call.CallSetVblankWait? ==> !call.enabled)
    || (forall call <- calls :: call.CallPresent? ==> !call.kind.Cpu?)
  }

  /** Any sequence of calls with any answers keeps the invariant, so buffers are
      locked and released in step and the plane follows current. From a safe state a
      buffer is given back while it may be on screen if and only if some present was an
      early flip; none is when nothing solid is published, no commit is nonblocking, or
      no CPU frames are shown. Answers that GBM or the kernel cannot give in the state
      reached are replaced by a failure. */
  method Run(c: Compositor, calls: seq<Call>)
    requires c.Valid()
    modifies c
    ensures c.Valid()
    ensures c.kernel.locked == c.Owned() && c.kernel.violations == 0 && c.kernel.Target() == c.currentFb
    ensures old(c.Safe()) ==>
      (c.kernel.unsafeReleases == old(c.kernel.unsafeReleases) <==> c.earlyFlips == old(c.earlyFlips))
    ensures old(c.Safe()) && c.earlyFlips == old(c.earlyFlips) ==> c.Safe()
    ensures NoEarlySolid(calls, old(c.solidFb), old(c.vblankWaitEnabled)) ==> c.earlyFlips == old(c.earlyFlips)
  {
    hide Compositor.Holding, Compositor.Locks;
    var k := 0;
    while k < |calls|
      invariant k <= |calls| && c.Valid()
      invariant c.earlyFlips >= old(c.earlyFlips)
      invariant c.kernel.unsafeReleases - old(c.kernel.unsafeReleases) >= c.earlyFlips - old(c.earlyFlips)
      invariant old(c.Safe()) && c.earlyFlips == old(c.earlyFlips) ==>
        c.Safe() && c.kernel.unsafeReleases == old(c.kernel.unsafeReleases)
      invariant NoEarlySolid(calls, old(c.solidFb), old(c.vblankWaitEnabled)) ==>
        c.earlyFlips == old(c.earlyFlips) && NoEarlySolid(calls[k..], c.solidFb, c.vblankWaitEnabled)
    {
      var call := calls[k];
      assert calls[k..][0] == call && forall later <- calls[k + 1..] :: later in calls[k..];
      Perform(c, call);
      k := k + 1;
    }
    c.OwnedIsLocked();
  }

  /** One call. */
  method Perform(c: Compositor, call: Call)
    requires c.Valid()
    modifies c
    ensures c.Valid()
    ensures c.earlyFlips == old(c.earlyFlips) || c.earlyFlips == old(c.earlyFlips) + 1
    ensures c.kernel.unsafeReleases >= old(c.kernel.unsafeReleases) + (c.earlyFlips - old(c.earlyFlips))
    ensures old(c.Safe()) && c.earlyFlips == old(c.earlyFlips) ==>
      c.Safe() && c.kernel.unsafeReleases == old(c.kernel.unsafeReleases)
    ensures c.earlyFlips > old(c.earlyFlips) ==>
      call.CallPresent? && call.kind.Cpu? && old(c.vblankWaitEnabled) && old(c.solidFb) != 0
    ensures c.vblankWaitEnabled == if call.CallSetVblankWait? then call.enabled else old(c.vblankWaitEnabled)
    ensures !call.CallPublishSolid? ==> c.solidFb == old(c.solidFb)
  {
    hide Compositor.Holding, Compositor.Locks;
    c.PendingIsOffScreen();
    match call {
      case CallPublishRendered(front) =>
        var _ := c.PublishRendered(if c.Plausible(front) then front else NoFrontBuffer);
      case CallPublishSolid(created) =>
        var _ := c.PublishSolid(if c.FreshId(created) then created else 0);
      case CallPresent(kind, videoPlane, planeFound, videoReady, update, front, answers) =>
        c.SolidOnly();
        var possible := if c.Plausible(front) then front else NoFrontBuffer;
        c.HeldIsNew(update, possible);
        c.NothingBeforeSolid(kind, update);
        var _ := c.Present(kind, videoPlane, planeFound, videoReady, update, possible, answers);
      case CallSetVblankWait(enabled) =>
        c.SetVblankWaitEnabled(enabled);
    }
  }

  /** The excluded case is real: with vblank waits enabled, a solid frame published
      over a rendered one makes present give the rendered frame's buffer back
      before the flip takes it off the screen. */
  method SolidFrameIsEarly(b: Buffer) returns (c: Compositor)
    ensures fresh(c) && c.Valid() && c.earlyFlips == 1 && c.kernel.unsafeReleases == 1 && !c.Settled()
    ensures c.surface == {b} && b !in c.kernel.locked && c.pendingBo == None && c.solidFb == 2
    ensures c.kernel.owner == map[1 := b] && c.kernel.shown == 1
  {
    hide Compositor.Holding, MakeKey, CacheMatches;
    c := new Compositor(false, {b});
    var answers := CommitAnswers([FlipEvent], true, true);
    var ok := c.PublishRendered(Front(b, Some(1)));
    c.RenderedIsReal();
    ok := c.Present(Cpu, true, true, true, false, NoSurface, answers);
    assert ok && c.currentBo == Some(b) && c.currentFb == 1;
    c.SetVblankWaitEnabled(true);
    ok := c.PublishSolid(2);
    ok := c.Present(Cpu, true, true, true, false, NoSurface, answers);
    c.OwnedIsLocked();
  }

  /** After an early flip other calls release a buffer on screen too: the buffer given
      back is rendered into and published again, and the next publication drops it
      while the plane still shows it. */
  method LateReleaseByPublish(b: Buffer) returns (c: Compositor)
    ensures fresh(c) && c.Valid() && c.earlyFlips == 1 && c.kernel.unsafeReleases == 2
  {
    hide Compositor.Holding, MakeKey, CacheMatches;
    c := SolidFrameIsEarly(b);
    assert c.kernel.owner[1] == b && c.Cached(b);
    var ok := c.PublishRendered(Front(b, None));
    assert c.pendingBo == Some(b) && c.kernel.unsafeReleases == 1;
    ok := c.PublishSolid(0);
  }
}
