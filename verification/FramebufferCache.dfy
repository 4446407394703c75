// Caches of imported video frames: the DRM framebuffer cache of the video plane
// and of the atomic compositor, with their GEM handles, and the EGLImage cache
// of the GLES renderer.
module FramebufferCache {
  import opened Bytes
  import opened RecencyCache

  const MAX_FRAMEBUFFERS: nat := 12
  const MAX_IMAGES: nat := 16

  // ----- Frames, keys and imports ------------------------------------------------

  /** A decoded frame; the arrays have one place for each of four planes. */
  datatype FrameFields = FrameFields(width: nat, height: nat, format: nat, planeCount: nat,
                                     fds: seq<int>, strides: seq<nat>, offsets: seq<nat>, modifiers: seq<nat>)

  type Frame = f: FrameFields | |f.fds| == |f.strides| == |f.offsets| == |f.modifiers| == 4
    witness FrameFields(0, 0, 0, 0, [-1, -1, -1, -1], [0, 0, 0, 0], [0, 0, 0, 0], [0, 0, 0, 0])

  /** What fstat tells of a file descriptor. */
  datatype FileId = FileId(device: nat, inode: nat)

  datatype FrameKey = FrameKey(width: nat, height: nat, format: nat, planeCount: nat,
                               files: seq<FileId>, strides: seq<nat>, offsets: seq<nat>, modifiers: seq<nat>)

  datatype Imported = Imported(framebuffer: nat, handles: seq<nat>)

  /** The answers to one lookup: fstat and drmPrimeFDToHandle by plane, then
      drmModeAddFB2. */
  datatype AnswerFields = AnswerFields(stats: seq<Option<FileId>>, primes: seq<Option<nat>>, added: Option<nat>)

  type Answers = a: AnswerFields | |a.stats| == |a.primes| == 4
    witness AnswerFields([None, None, None, None], [None, None, None, None], None)

  function HandleSet(handles: seq<nat>): set<nat> {
    set h <- handles | h != 0
  }

  /** The identity of a frame: refused for a bad plane count, a negative file
      descriptor or a failing fstat. */
  function KeyOf(frame: Frame, stats: seq<Option<FileId>>): Option<FrameKey>
    requires |stats| == 4
  {
    if !(1 <= frame.planeCount <= 4)
       || exists i | 0 <= i < frame.planeCount :: frame.fds[i] < 0 || stats[i].None?
    then None
    else
      Some(FrameKey(frame.width, frame.height, frame.format, frame.planeCount,
                    seq(4, i requires 0 <= i < 4 => if i < frame.planeCount then stats[i].value else FileId(0, 0)),
                    frame.strides, frame.offsets, frame.modifiers))
  }

  /** A frame and what fstat told of its files. */
  datatype Source = Source(frame: Frame, stats: seq<Option<FileId>>)

  /** Has every plane of the frame a file that can be told from others? */
  predicate Identified(frame: Frame, stats: seq<Option<FileId>>)
    requires |stats| == 4
  {
    1 <= frame.planeCount <= 4 && forall i | 0 <= i < frame.planeCount :: frame.fds[i] >= 0 && stats[i].Some?
  }

  /** The same pixels: the same layout of the same files. */
  predicate SamePicture(a: Source, b: Source) {
    && a.frame.width == b.frame.width && a.frame.height == b.frame.height && a.frame.format == b.frame.format
    && a.frame.planeCount == b.frame.planeCount && |a.stats| == |b.stats| == 4
    && a.frame.strides == b.frame.strides && a.frame.offsets == b.frame.offsets
    && a.frame.modifiers == b.frame.modifiers
    && forall i | 0 <= i < 4 && i < a.frame.planeCount :: a.stats[i] == b.stats[i]
  }

  /** Two frames have one key exactly when they are the same picture. */
  lemma KeyTellsPicture(a: Source, b: Source)
    requires |a.stats| == |b.stats| == 4
    ensures KeyOf(a.frame, a.stats).Some? <==> Identified(a.frame, a.stats)
    ensures Identified(a.frame, a.stats) && Identified(b.frame, b.stats) ==>
      (KeyOf(a.frame, a.stats) == KeyOf(b.frame, b.stats) <==> SamePicture(a, b))
  {
    if Identified(a.frame, a.stats) && Identified(b.frame, b.stats) {
      var k, l := KeyOf(a.frame, a.stats).value, KeyOf(b.frame, b.stats).value;
      if k == l {
        forall i | 0 <= i < a.frame.planeCount ensures a.stats[i] == b.stats[i] {
          assert k.files[i] == l.files[i];
        }
      }
      if SamePicture(a, b) {
        assert k.files == l.files;
      }
    }
  }

  // ----- The kernel's side ----------------------------------------------------------

  /** Open GEM handles and framebuffers of imported frames, and the framebuffer on
      the video plane. */
  datatype Gem = Gem(open: set<nat>, framebuffers: set<nat>, onScreen: nat, violations: nat, removedOnScreen: nat) {
    function Open(h: nat): Gem {
      this.(open := open + {h})
    }

    function Close(h: nat): Gem {
      this.(open := open - {h}, violations := violations + if h in open then 0 else 1)
    }

    function AddFramebuffer(fb: nat): Gem {
      this.(framebuffers := framebuffers + {fb})
    }

    /** Removing the framebuffer on screen turns the plane off. */
    function RemoveFramebuffer(fb: nat): Gem {
      this.(framebuffers := framebuffers - {fb},
            violations := violations + (if fb in framebuffers then 0 else 1),
            removedOnScreen := removedOnScreen + (if fb == onScreen then 1 else 0),
            onScreen := if fb == onScreen then 0 else onScreen)
    }
  }

  type CacheEntry = Entry<FrameKey, Imported>

  function AllHandles(cache: seq<CacheEntry>): set<nat> {
    if cache == [] then {} else HandleSet(cache[0].value.handles) + AllHandles(cache[1..])
  }

  function AllFramebuffers(cache: seq<CacheEntry>): set<nat> {
    if cache == [] then {} else {cache[0].value.framebuffer} + AllFramebuffers(cache[1..])
  }

  /** No two entries share a handle or a framebuffer. */
  ghost predicate Separate(cache: seq<CacheEntry>) {
    && (forall e <- cache :: e.value.framebuffer != 0)
    && (forall i, j | 0 <= i < j < |cache| :: cache[i].value.framebuffer != cache[j].value.framebuffer)
    && (forall i, j | 0 <= i < j < |cache| :: HandleSet(cache[i].value.handles) !! HandleSet(cache[j].value.handles))
  }

  /** What each entry was imported from, by framebuffer. */
  ghost predicate Recorded(cache: seq<CacheEntry>, origins: map<nat, Source>) {
    forall i | 0 <= i < |cache| :: RecordedAs(cache[i], origins)
  }

  ghost predicate RecordedAs(e: CacheEntry, origins: map<nat, Source>) {
    && e.value.framebuffer in origins
    && var origin := origins[e.value.framebuffer];
    && |origin.stats| == 4 && KeyOf(origin.frame, origin.stats) == Some(e.key)
  }

  lemma RecordedFewer(cache: seq<CacheEntry>, now: seq<CacheEntry>, origins: map<nat, Source>)
    requires Recorded(cache, origins) && forall e <- now :: e in cache
    ensures Recorded(now, origins)
  {
    hide RecordedAs;
    forall i | 0 <= i < |now| ensures RecordedAs(now[i], origins) {
      assert now[i] in cache;
    }
  }

  lemma RecordedTouched(cache: seq<CacheEntry>, v: nat, stamp: nat, origins: map<nat, Source>)
    requires Recorded(cache, origins) && v < |cache|
    ensures Recorded(cache[v := cache[v].(lastUsed := stamp)], origins)
  {
  }

  lemma RecordedMore(cache: seq<CacheEntry>, e: CacheEntry, origins: map<nat, Source>, origin: Source)
    requires Recorded(cache, origins) && e.value.framebuffer !in AllFramebuffers(cache)
    requires |origin.stats| == 4 && KeyOf(origin.frame, origin.stats) == Some(e.key)
    ensures Recorded(cache + [e], origins[e.value.framebuffer := origin])
  {
    TotalsContain(cache);
    hide KeyOf;
    assert forall i | 0 <= i < |cache| :: cache[i] in cache && RecordedAs(cache[i], origins);
  }

  /** A picture is cached exactly when an entry has its key. */
  lemma PictureCached(cache: seq<CacheEntry>, origins: map<nat, Source>, wanted: Source)
    requires Recorded(cache, origins) && |wanted.stats| == 4 && Identified(wanted.frame, wanted.stats)
    ensures KeyOf(wanted.frame, wanted.stats).Some?
    ensures Cached(cache, KeyOf(wanted.frame, wanted.stats).value) <==> HasPicture(cache, origins, wanted)
  {
    KeyTellsPicture(wanted, wanted);
    forall i | 0 <= i < |cache|
      ensures cache[i].key == KeyOf(wanted.frame, wanted.stats).value <==>
        SamePicture(wanted, OriginOf(origins, cache[i].value.framebuffer))
    {
      var origin := origins[cache[i].value.framebuffer];
      KeyTellsPicture(origin, origin);
      KeyTellsPicture(wanted, origin);
    }
  }

  lemma FoundAgrees(cache: seq<CacheEntry>, v: nat, origins: map<nat, Source>, wanted: Source)
    requires Recorded(cache, origins) && v < |cache| && |wanted.stats| == 4 && Identified(wanted.frame, wanted.stats)
    requires KeyOf(wanted.frame, wanted.stats) == Some(cache[v].key)
    ensures cache[v].value.framebuffer in origins && cache[v].value.framebuffer in AllFramebuffers(cache)
    ensures SamePicture(wanted, origins[cache[v].value.framebuffer])
    ensures var origin := origins[cache[v].value.framebuffer];
      && |origin.stats| == 4
      && origin.frame.width == wanted.frame.width && origin.frame.height == wanted.frame.height
      && origin.frame.format == wanted.frame.format && origin.frame.planeCount == wanted.frame.planeCount
      && origin.frame.strides == wanted.frame.strides && origin.frame.offsets == wanted.frame.offsets
      && origin.frame.modifiers == wanted.frame.modifiers
      && forall i | 0 <= i < 4 && i < wanted.frame.planeCount :: origin.stats[i] == wanted.stats[i]
  {
    assert RecordedAs(cache[v], origins) && cache[v] in cache;
    TotalsContain(cache);
    var origin := origins[cache[v].value.framebuffer];
    KeyTellsPicture(origin, origin);
    KeyTellsPicture(wanted, origin);
  }

  function OriginOf(origins: map<nat, Source>, framebuffer: nat): Source {
    if framebuffer in origins then origins[framebuffer] else Source(NO_FRAME, [])
  }

  const NO_FRAME: Frame := FrameFields(0, 0, 0, 0, [-1, -1, -1, -1], [0, 0, 0, 0], [0, 0, 0, 0], [0, 0, 0, 0])

  /** Was an entry imported from this very picture? */
  ghost predicate HasPicture(cache: seq<CacheEntry>, origins: map<nat, Source>, wanted: Source) {
    exists i :: 0 <= i < |cache| && SamePicture(wanted, OriginOf(origins, cache[i].value.framebuffer))
  }

  lemma {:induction false} TotalsAppend(a: seq<CacheEntry>, b: seq<CacheEntry>)
    ensures AllHandles(a + b) == AllHandles(a) + AllHandles(b)
    ensures AllFramebuffers(a + b) == AllFramebuffers(a) + AllFramebuffers(b)
  {
    if a == [] {
      assert a + b == b;
    } else {
      assert (a + b)[1..] == a[1..] + b;
      TotalsAppend(a[1..], b);
    }
  }

  lemma {:induction false} TotalsContain(cache: seq<CacheEntry>)
    ensures forall e <- cache ::
      HandleSet(e.value.handles) <= AllHandles(cache) && e.value.framebuffer in AllFramebuffers(cache)
    ensures forall h <- AllHandles(cache) :: exists e <- cache :: h in HandleSet(e.value.handles)
    ensures forall fb <- AllFramebuffers(cache) :: exists e <- cache :: fb == e.value.framebuffer
  {
    hide HandleSet;
    if cache != [] {
      var tail := cache[1..];
      TotalsContain(tail);
      assert cache[0] in cache && forall e <- tail :: e in cache;
      assert forall e <- cache :: e == cache[0] || e in tail;
      assert AllHandles(cache) == HandleSet(cache[0].value.handles) + AllHandles(tail);
      assert AllFramebuffers(cache) == {cache[0].value.framebuffer} + AllFramebuffers(tail);
    }
  }

  lemma TotalsOne(e: CacheEntry)
    ensures AllHandles([e]) == HandleSet(e.value.handles) && AllFramebuffers([e]) == {e.value.framebuffer}
  {
  }

  lemma SeparateWithout(cache: seq<CacheEntry>, v: nat)
    requires Separate(cache) && v < |cache|
    ensures Separate(Without(cache, v))
    ensures forall e <- Without(cache, v) ::
      e.value.framebuffer != cache[v].value.framebuffer
        && HandleSet(e.value.handles) !! HandleSet(cache[v].value.handles)
  {
  }

  lemma {:induction false} TotalsSame(cache: seq<CacheEntry>, other: seq<CacheEntry>)
    requires |cache| == |other| && forall i | 0 <= i < |cache| :: cache[i].value == other[i].value
    ensures AllHandles(cache) == AllHandles(other) && AllFramebuffers(cache) == AllFramebuffers(other)
  {
    if cache != [] {
      TotalsSame(cache[1..], other[1..]);
    }
  }

  lemma NothingLeft(serial: nat)
    ensures AllHandles([]) == {} && AllFramebuffers([]) == {}
    ensures Separate([]) && StampedBy<FrameKey, Imported>([], serial) && DistinctKeys<FrameKey, Imported>([])
  {
  }

  lemma SeparateIds(cache: seq<CacheEntry>)
    requires Separate(cache)
    ensures forall e <- cache :: e.value.framebuffer != 0
    ensures 0 !in AllFramebuffers(cache)
  {
    TotalsContain(cache);
  }

  lemma {:induction false} TotalsSplit(cache: seq<CacheEntry>, v: nat)
    requires v < |cache|
    ensures AllHandles(cache) == AllHandles(Without(cache, v)) + HandleSet(cache[v].value.handles)
    ensures AllFramebuffers(cache) == AllFramebuffers(Without(cache, v)) + {cache[v].value.framebuffer}
  {
    hide HandleSet;
    var rest := Without(cache, v);
    if v == 0 {
      assert rest == cache[1..];
    } else {
      TotalsSplit(cache[1..], v - 1);
      assert rest[0] == cache[0] && rest[1..] == Without(cache[1..], v - 1);
    }
  }

  lemma TotalsApart(cache: seq<CacheEntry>, e: CacheEntry)
    requires forall x <- cache ::
      x.value.framebuffer != e.value.framebuffer && HandleSet(x.value.handles) !! HandleSet(e.value.handles)
    ensures AllHandles(cache) !! HandleSet(e.value.handles)
    ensures e.value.framebuffer !in AllFramebuffers(cache)
  {
    TotalsContain(cache);
  }

  /** Taking one entry out takes out exactly its handles and its framebuffer. */
  lemma TotalsWithout(cache: seq<CacheEntry>, v: nat)
    requires Separate(cache) && v < |cache|
    ensures Separate(Without(cache, v))
    ensures AllHandles(Without(cache, v)) == AllHandles(cache) - HandleSet(cache[v].value.handles)
    ensures AllFramebuffers(Without(cache, v)) == AllFramebuffers(cache) - {cache[v].value.framebuffer}
  {
    hide HandleSet, Separate, Without;
    SeparateWithout(cache, v);
    TotalsSplit(cache, v);
    TotalsApart(Without(cache, v), cache[v]);
  }

  lemma KeysSnoc(cache: seq<CacheEntry>, e: CacheEntry, serial: nat)
    requires StampedBy(cache, serial) && DistinctKeys(cache) && e.lastUsed == serial
    requires forall x <- cache :: x.lastUsed < e.lastUsed && x.key != e.key
    ensures StampedBy(cache + [e], serial) && DistinctKeys(cache + [e])
  {
    assert forall i | 0 <= i < |cache| :: cache[i] in cache;
  }

  lemma TotalsWith(cache: seq<CacheEntry>, e: CacheEntry)
    requires Separate(cache) && e.value.framebuffer != 0 && e.value.framebuffer !in AllFramebuffers(cache)
    requires HandleSet(e.value.handles) !! AllHandles(cache)
    ensures Separate(cache + [e])
    ensures AllHandles(cache + [e]) == AllHandles(cache) + HandleSet(e.value.handles)
    ensures AllFramebuffers(cache + [e]) == AllFramebuffers(cache) + {e.value.framebuffer}
  {
    TotalsAppend(cache, [e]);
    TotalsContain(cache);
    TotalsOne(e);
  }

  // ----- Importing a frame ------------------------------------------------------------

  /** How far importing the planes gets. */
  datatype Progress = AllPlanes | NegativeAt(plane: nat) | RefusedAt(plane: nat)

  function Walk(frame: Frame, primes: seq<Option<nat>>, i: nat): Progress
    requires i <= frame.planeCount <= 4 && |primes| == 4
    decreases frame.planeCount - i
  {
    if i == frame.planeCount then AllPlanes
    else if frame.fds[i] < 0 then NegativeAt(i)
    else if frame.fds[i] in frame.fds[..i] then Walk(frame, primes, i + 1)
    else if primes[i].None? then RefusedAt(i)
    else Walk(frame, primes, i + 1)
  }

  /** The first plane with the same file descriptor. */
  function FirstUse(fds: seq<int>, i: nat, from: nat): (j: nat)
    requires from <= i < |fds|
    ensures from <= j <= i && fds[j] == fds[i] && forall k | from <= k < j :: fds[k] != fds[i]
    decreases i - from
  {
    if fds[from] == fds[i] then from else FirstUse(fds, i, from + 1)
  }

  /** The handle of plane i: that of the first plane with its file descriptor. */
  function HandleAt(frame: Frame, primes: seq<Option<nat>>, i: nat): nat
    requires i < 4 && |primes| == 4
  {
    var prime := primes[FirstUse(frame.fds, i, 0)];
    if prime.Some? then prime.value else 0
  }

  /** The handles of the first count planes, 0 for the rest. */
  function HandlesOf(frame: Frame, primes: seq<Option<nat>>, count: nat): seq<nat>
    requires |primes| == 4
  {
    seq(4, i requires 0 <= i < 4 => if i < count then HandleAt(frame, primes, i) else 0)
  }

  /** The map from file descriptors to handles that the import loop keeps. */
  ghost predicate Remembers(fds: map<int, nat>, frame: Frame, primes: seq<Option<nat>>, count: nat)
    requires count <= 4 && |primes| == 4
  {
    && (forall fd :: fd in fds <==> fd in frame.fds[..count])
    && (forall k | 0 <= k < count :: frame.fds[k] in fds && fds[frame.fds[k]] == HandleAt(frame, primes, k))
  }

  lemma KnownHandle(fds: map<int, nat>, frame: Frame, primes: seq<Option<nat>>, i: nat)
    requires i < 4 && |primes| == 4 && Remembers(fds, frame, primes, i)
    ensures frame.fds[i] in fds <==> frame.fds[i] in frame.fds[..i]
    ensures frame.fds[i] in fds ==>
      fds[frame.fds[i]] == HandleAt(frame, primes, i) && Remembers(fds, frame, primes, i + 1)
    ensures frame.fds[i] in fds ==> fds[frame.fds[i]] in HandlesOf(frame, primes, i)
  {
    hide HandleAt;
    var fd := frame.fds[i];
    assert fd in fds <==> fd in frame.fds[..i];
    assert frame.fds[..i + 1] == frame.fds[..i] + [fd];
    if frame.fds[i] in frame.fds[..i] {
      var k :| 0 <= k < i && frame.fds[k] == frame.fds[i];
      SameHandle(frame, primes, k, i);
      assert HandlesOf(frame, primes, i)[k] == HandleAt(frame, primes, k);
    }
  }

  lemma SameHandle(frame: Frame, primes: seq<Option<nat>>, k: nat, i: nat)
    requires k < i < 4 && |primes| == 4 && frame.fds[k] == frame.fds[i]
    ensures HandleAt(frame, primes, k) == HandleAt(frame, primes, i)
  {
    var j, l := FirstUse(frame.fds, k, 0), FirstUse(frame.fds, i, 0);
    assert j == l;
  }

  lemma NothingRemembered(frame: Frame, primes: seq<Option<nat>>)
    requires |primes| == 4
    ensures Remembers(map[], frame, primes, 0)
  {
  }

  lemma NewHandle(fds: map<int, nat>, frame: Frame, primes: seq<Option<nat>>, i: nat)
    requires i < 4 && |primes| == 4 && Remembers(fds, frame, primes, i)
    requires frame.fds[i] !in fds && primes[i].Some?
    ensures HandleAt(frame, primes, i) == primes[i].value
    ensures Remembers(fds[frame.fds[i] := primes[i].value], frame, primes, i + 1)
  {
    FirstOfItsFile(frame, primes, i);
    hide HandleAt;
    var fd, next := frame.fds[i], fds[frame.fds[i] := primes[i].value];
    assert frame.fds[..i + 1] == frame.fds[..i] + [fd];
    forall k | 0 <= k < i ensures frame.fds[k] != fd {
      assert frame.fds[k] in frame.fds[..i];
    }
    forall k | 0 <= k < i + 1 ensures frame.fds[k] in next && next[frame.fds[k]] == HandleAt(frame, primes, k) {
      assert k < i ==> frame.fds[k] in fds;
    }
  }

  lemma FirstOfItsFile(frame: Frame, primes: seq<Option<nat>>, i: nat)
    requires i < 4 && |primes| == 4 && frame.fds[i] !in frame.fds[..i] && primes[i].Some?
    ensures HandleAt(frame, primes, i) == primes[i].value
  {
    assert FirstUse(frame.fds, i, 0) == i;
  }

  lemma OneMoreHandle(frame: Frame, primes: seq<Option<nat>>, i: nat)
    requires i < 4 && |primes| == 4
    ensures |HandlesOf(frame, primes, i)| == 4 && forall k | i <= k < 4 :: HandlesOf(frame, primes, i)[k] == 0
    ensures HandlesOf(frame, primes, i + 1) == HandlesOf(frame, primes, i)[i := HandleAt(frame, primes, i)]
  {
  }

  /** What an import makes of a frame, if it succeeds. */
  function ImportOf(frame: Frame, answers: Answers): Option<Imported> {
    if 1 <= frame.planeCount <= 4 && Walk(frame, answers.primes, 0).AllPlanes? && answers.added.Some? then
      Some(Imported(answers.added.value, HandlesOf(frame, answers.primes, frame.planeCount)))
    else None
  }

  /** The handles and the framebuffer id among the answers. */
  function HandlesGiven(answers: Answers): set<nat> {
    set p <- answers.primes | p.Some? :: p.value
  }

  function IdGiven(answers: Answers): set<nat> {
    if answers.added.Some? then {answers.added.value} else {}
  }

  lemma HandlesWereGiven(frame: Frame, answers: Answers)
    ensures ImportOf(frame, answers).Some? ==>
      HandleSet(ImportOf(frame, answers).value.handles) <= HandlesGiven(answers)
  {
    forall h | h in HandleSet(HandlesOf(frame, answers.primes, frame.planeCount)) ensures h in HandlesGiven(answers) {
      var i :| 0 <= i < 4 && HandlesOf(frame, answers.primes, frame.planeCount)[i] == h;
      assert answers.primes[FirstUse(frame.fds, i, 0)] in answers.primes;
    }
  }

  lemma OrderLength(cache: seq<CacheEntry>)
    ensures |View(cache)| == |cache|
  {
    OrderedMembers(cache);
  }

  /** The early return of import_frame that forgets the planes before it. */
  predicate Forgets(frame: Frame, primes: seq<Option<nat>>)
    requires |primes| == 4
  {
    && 1 <= frame.planeCount <= 4
    && var progress := Walk(frame, primes, 0); progress.NegativeAt? && progress.plane > 0
  }

  predicate GivenHandle(frame: Frame, primes: seq<Option<nat>>, k: nat)
    requires k < 4 && |primes| == 4
  {
    frame.fds[k] >= 0 && (frame.fds[k] in frame.fds[..k] || primes[k].Some?)
  }

  predicate AllGiven(frame: Frame, primes: seq<Option<nat>>, i: nat, n: nat)
    requires n <= 4 && |primes| == 4
  {
    forall k | i <= k < n :: GivenHandle(frame, primes, k)
  }

  lemma {:induction false} WalkIsNegative(frame: Frame, primes: seq<Option<nat>>, i: nat, n: nat)
    requires i <= frame.planeCount <= 4 && n < frame.planeCount && |primes| == 4
    ensures Walk(frame, primes, i) == NegativeAt(n) <==> i <= n && frame.fds[n] < 0 && AllGiven(frame, primes, i, n)
    decreases frame.planeCount - i
  {
    if i < frame.planeCount {
      assert i < n ==> (AllGiven(frame, primes, i, n) <==>
                        GivenHandle(frame, primes, i) && AllGiven(frame, primes, i + 1, n));
      if GivenHandle(frame, primes, i) {
        WalkIsNegative(frame, primes, i + 1, n);
      }
    }
  }

  /** Said of the frame and the answers alone: a plane after the first has a negative
      file descriptor, and every plane before it was given a handle. */
  lemma ForgetsMeans(frame: Frame, primes: seq<Option<nat>>)
    requires |primes| == 4
    ensures Forgets(frame, primes) <==>
      && 1 <= frame.planeCount <= 4
      && exists n :: 0 < n < frame.planeCount && frame.fds[n] < 0 && AllGiven(frame, primes, 0, n)
  {
    if 1 <= frame.planeCount <= 4 {
      if Walk(frame, primes, 0).NegativeAt? {
        WalkStops(frame, primes, 0);
        WalkIsNegative(frame, primes, 0, Walk(frame, primes, 0).plane);
      }
      if n :| 0 < n < frame.planeCount && frame.fds[n] < 0 && AllGiven(frame, primes, 0, n) {
        WalkIsNegative(frame, primes, 0, n);
      }
    }
  }

  lemma {:induction false} WalkStops(frame: Frame, primes: seq<Option<nat>>, i: nat)
    requires i <= frame.planeCount <= 4 && |primes| == 4
    ensures Walk(frame, primes, i).NegativeAt? ==> Walk(frame, primes, i).plane < frame.planeCount
    decreases frame.planeCount - i
  {
    if i < frame.planeCount {
      WalkStops(frame, primes, i + 1);
    }
  }

  lemma {:induction false} WalkReachesEnd(frame: Frame, primes: seq<Option<nat>>, i: nat)
    requires i <= frame.planeCount <= 4 && |primes| == 4
    ensures Walk(frame, primes, i).AllPlanes? <==> AllGiven(frame, primes, i, frame.planeCount)
    decreases frame.planeCount - i
  {
    var n := frame.planeCount;
    if i < n {
      assert AllGiven(frame, primes, i, n) <==> GivenHandle(frame, primes, i) && AllGiven(frame, primes, i + 1, n);
      WalkReachesEnd(frame, primes, i + 1);
    }
  }

  lemma AllGivenMeans(frame: Frame, primes: seq<Option<nat>>)
    requires frame.planeCount <= 4 && |primes| == 4
    ensures AllGiven(frame, primes, 0, frame.planeCount) <==>
      forall i | 0 <= i < frame.planeCount ::
        frame.fds[i] >= 0 && (frame.fds[i] in frame.fds[..i] || primes[i].Some?)
  {
    if AllGiven(frame, primes, 0, frame.planeCount) {
      forall i | 0 <= i < frame.planeCount
        ensures frame.fds[i] >= 0 && (frame.fds[i] in frame.fds[..i] || primes[i].Some?)
      {
        assert GivenHandle(frame, primes, i);
      }
    }
  }

  /** When every plane is given a handle, it is one for each file descriptor. */
  lemma HandlesByFile(frame: Frame, primes: seq<Option<nat>>)
    requires 1 <= frame.planeCount <= 4 && |primes| == 4
    ensures Walk(frame, primes, 0).AllPlanes? <==>
      forall i | 0 <= i < frame.planeCount ::
        frame.fds[i] >= 0 && (frame.fds[i] in frame.fds[..i] || primes[i].Some?)
    ensures var handles := HandlesOf(frame, primes, frame.planeCount);
      && |handles| == 4
      && (forall i | frame.planeCount <= i < 4 :: handles[i] == 0)
      && (forall i, j | 0 <= i < j < frame.planeCount && frame.fds[i] == frame.fds[j] :: handles[i] == handles[j])
      && (Walk(frame, primes, 0).AllPlanes? ==>
            forall i | 0 <= i < frame.planeCount && frame.fds[i] !in frame.fds[..i] :: primes[i] == Some(handles[i]))
  {
    WalkReachesEnd(frame, primes, 0);
    AllGivenMeans(frame, primes);
    var handles := HandlesOf(frame, primes, frame.planeCount);
    forall i, j | 0 <= i < j < frame.planeCount && frame.fds[i] == frame.fds[j] ensures handles[i] == handles[j] {
      SameHandle(frame, primes, i, j);
    }
    if Walk(frame, primes, 0).AllPlanes? {
      forall i | 0 <= i < frame.planeCount && frame.fds[i] !in frame.fds[..i] ensures primes[i] == Some(handles[i]) {
        assert GivenHandle(frame, primes, i) && FirstUse(frame.fds, i, 0) == i;
      }
    }
  }

  /** Two planes, the second without a descriptor: the first one's handle is lost. */
  lemma SecondPlaneMissing(frame: Frame, primes: seq<Option<nat>>, handle: nat)
    requires |primes| == 4 && frame.planeCount == 2 && frame.fds == [3, -1, -1, -1] && primes[0] == Some(handle)
    ensures Forgets(frame, primes)
  {
  }

  /** A frame with a key is never forgotten half-way. */
  lemma {:induction false} KeyedFramesAreNotForgotten(frame: Frame, stats: seq<Option<FileId>>,
                                                      primes: seq<Option<nat>>, i: nat)
    requires |stats| == |primes| == 4 && KeyOf(frame, stats).Some? && i <= frame.planeCount
    ensures !Walk(frame, primes, i).NegativeAt?
    decreases frame.planeCount - i
  {
    if i < frame.planeCount {
      assert frame.fds[i] >= 0;
      KeyedFramesAreNotForgotten(frame, stats, primes, i + 1);
    }
  }

  /** Freshness of the kernel's answers: handles are not shared between imports,
      and a new framebuffer id is not in use. */
  predicate Plausible(answers: Answers, gem: Gem) {
    && (forall p <- answers.primes :: p.Some? ==> p.value != 0 && p.value !in gem.open)
    && (answers.added.Some? ==> answers.added.value !in gem.framebuffers + {0, gem.onScreen})
  }

  /** destroy_imported as one step: the framebuffer, then each distinct handle. */
  function Destroyed(gem: Gem, imported: Imported): Gem {
    var g := if imported.framebuffer != 0 then gem.RemoveFramebuffer(imported.framebuffer) else gem;
    g.(open := g.open - HandleSet(imported.handles))
  }

  lemma HandleSetNext(handles: seq<nat>, i: nat, h: nat)
    requires i < |handles| && handles[i] == 0 && h != 0
    ensures HandleSet(handles[i := h]) == HandleSet(handles) + {h} && 0 !in HandleSet(handles[i := h])
  {
    var next := handles[i := h];
    assert next[i] == h;
    forall x | x in HandleSet(handles) ensures x in HandleSet(next) {
      var j :| 0 <= j < |handles| && handles[j] == x;
      assert next[j] == x;
    }
  }

  lemma HandleSetAgain(handles: seq<nat>, i: nat, h: nat)
    requires i < |handles| && handles[i] == 0 && h in handles
    ensures HandleSet(handles[i := h]) == HandleSet(handles)
  {
    var next := handles[i := h];
    assert next[i] == h;
    forall x | x in HandleSet(handles) ensures x in HandleSet(next) {
      var k :| 0 <= k < |handles| && handles[k] == x;
      assert next[k] == x;
    }
  }

  lemma NoHandles(handles: seq<nat>)
    requires forall h <- handles :: h == 0
    ensures HandleSet(handles) == {}
  {
  }

  lemma HandleSetPrefix(handles: seq<nat>, i: nat)
    requires i < |handles|
    ensures HandleSet(handles[..i + 1]) == HandleSet(handles[..i]) + if handles[i] != 0 then {handles[i]} else {}
  {
    assert handles[..i + 1] == handles[..i] + [handles[i]];
  }

  lemma DropFirst(cache: seq<CacheEntry>, i: nat)
    requires i < |cache| && Separate(cache[i..])
    ensures Separate(cache[i + 1..])
    ensures AllHandles(cache[i + 1..]) == AllHandles(cache[i..]) - HandleSet(cache[i].value.handles)
    ensures AllFramebuffers(cache[i + 1..]) == AllFramebuffers(cache[i..]) - {cache[i].value.framebuffer}
    ensures HandleSet(cache[i].value.handles) <= AllHandles(cache[i..])
    ensures cache[i].value.framebuffer in AllFramebuffers(cache[i..]) && cache[i].value.framebuffer != 0
  {
    hide HandleSet, Separate;
    var here := cache[i..];
    assert Without(here, 0) == cache[i + 1..] && here[0] == cache[i];
    SeparateIds(here);
    TotalsWithout(here, 0);
    TotalsContain(here);
  }

  // ----- The caches as recency lists -------------------------------------------------

  /** All that matters of a cache: its entries from least to most recently used, the
      framebuffer on screen, the plane's format and modifier, and how many framebuffers
      were removed while on screen. */
  datatype Listing = Listing(order: seq<(FrameKey, Imported)>, onScreen: nat, plane: Option<(nat, nat)>, removed: nat)

  /** What eviction skips: the video plane's cache keeps the entry on screen, the
      compositor's copy of the code keeps none. */
  function Skipping(protect: bool, fb: nat): ((FrameKey, Imported)) -> bool {
    if protect then (p: (FrameKey, Imported)) => p.1.framebuffer == fb else (p: (FrameKey, Imported)) => false
  }

  function Evicted(l: Listing, protect: bool): Listing {
    if |l.order| < MAX_FRAMEBUFFERS then l
    else
      var rest := l.(order := Dropped(l.order, Skipping(protect, l.onScreen)));
      if !protect && l.order[0].1.framebuffer == l.onScreen then rest.(onScreen := 0, removed := l.removed + 1)
      else rest
  }

  /** A hit moves the entry to the end; a miss makes room and appends what it imports. */
  ghost function LookedUp(l: Listing, key: FrameKey, imported: Option<Imported>, protect: bool): Listing {
    if HasKey(l.order, key) then l.(order := Touched(l.order, key))
    else
      var room := Evicted(l, protect);
      if imported.Some? then room.(order := room.order + [(key, imported.value)]) else room
  }

  /** The framebuffer of the most recently used entry. */
  function Newest(order: seq<(FrameKey, Imported)>): nat {
    if order == [] then 0 else order[|order| - 1].1.framebuffer
  }

  /** A frame given to present, and the answers to its calls. disabled: turning the plane
      off before a format change succeeds; planeFound: a plane takes the new format;
      ready: the compositor has its other planes; accepted: the plane update or commit
      succeeds. */
  datatype Shown = Shown(frame: Frame, answers: Answers, disabled: bool, planeFound: bool, ready: bool, accepted: bool)

  function PlaneOf(f: Shown): Option<(nat, nat)> {
    Some((f.frame.format, f.frame.modifiers[0]))
  }

  /** A new format empties the cache. Only the video plane's code turns the plane off
      first, and keeps the old format when no plane takes the new one. */
  function Switched(l: Listing, f: Shown, protect: bool): Listing {
    if l.plane == PlaneOf(f) then l
    else
      Listing([], 0, if f.planeFound then PlaneOf(f) else if protect then l.plane else None,
              l.removed + if l.onScreen != 0 && !(protect && f.disabled) then 1 else 0)
  }

  /** One present. */
  ghost function Presented(l: Listing, f: Shown, protect: bool): Listing {
    var s, key, imported := Switched(l, f, protect), KeyOf(f.frame, f.answers.stats), ImportOf(f.frame, f.answers);
    if s.plane != PlaneOf(f) || (!protect && !f.ready) || key.None? then s
    else
      var u := LookedUp(s, key.value, imported, protect);
      if (HasKey(s.order, key.value) || imported.Some?) && f.accepted then u.(onScreen := Newest(u.order)) else u
  }

  /** A run of presents. */
  ghost function Played(l: Listing, run: seq<Shown>, protect: bool): Listing {
    if run == [] then l else Presented(Played(l, run[..|run| - 1], protect), run[|run| - 1], protect)
  }

  class ImportCache {
    var cache: seq<CacheEntry>
    var frameSerial: nat
    var currentFramebuffer: nat
    var videoPlane: Option<(nat, nat)>
    /** The video plane's cache skips the entry on screen when it evicts; the
        compositor's copy of the code does not. */
    const protectOnScreen: bool
    // The environment: the kernel's side of the imports.
    var gem: Gem
    /** What each framebuffer was last imported from. */
    ghost var origins: map<nat, Source>

    constructor (protectOnScreen: bool)
      ensures Valid() && cache == [] && frameSerial == 0 && this.protectOnScreen == protectOnScreen
      ensures gem == Gem({}, {}, 0, 0, 0) && State() == Listing([], 0, None, 0)
    {
      this.protectOnScreen := protectOnScreen;
      cache, frameSerial, currentFramebuffer, videoPlane := [], 0, 0, None;
      gem := Gem({}, {}, 0, 0, 0);
      origins := map[];
    }

    /** Open handles and framebuffers are exactly those of the entries, nothing was
        closed or removed twice, and stamps and keys are distinct. */
    ghost predicate Valid()
      reads this
    {
      && Accounted()
      && |cache| <= MAX_FRAMEBUFFERS
      && OnScreenIsCached()
      && Recorded(cache, origins)
      && (protectOnScreen ==> OnScreenIsCurrent())
    }

    ghost predicate OnScreenIsCached()
      reads this`cache, this`gem
    {
      gem.onScreen == 0 || gem.onScreen in AllFramebuffers(cache)
    }

    ghost function State(): Listing
      reads this`cache, this`gem, this`videoPlane
    {
      Listing(View(cache), gem.onScreen, videoPlane, gem.removedOnScreen)
    }

    ghost predicate OnScreenIsCurrent()
      reads this
    {
      && gem.onScreen == currentFramebuffer
      && (currentFramebuffer != 0 ==> videoPlane.Some? && currentFramebuffer in AllFramebuffers(cache))
    }

    ghost predicate Accounted()
      reads this`cache, this`gem, this`frameSerial
    {
      Holds(AllHandles(cache), AllFramebuffers(cache))
    }

    /** Distinct stamps, keys and resources; the kernel has these open. */
    ghost predicate Holds(handles: set<nat>, framebuffers: set<nat>)
      reads this`cache, this`gem, this`frameSerial
    {
      && StampedBy(cache, frameSerial) && DistinctKeys(cache) && Separate(cache)
      && gem.open == handles && gem.framebuffers == framebuffers && gem.violations == 0
    }

    method DestroyImported(imported: Imported)
      requires HandleSet(imported.handles) <= gem.open
      modifies this`gem
      ensures gem == Destroyed(old(gem), imported)
    {
      if imported.framebuffer != 0 {
        gem := gem.RemoveFramebuffer(imported.framebuffer);
      }
      ghost var before := gem;
      var closed: set<nat> := {};
      for i := 0 to |imported.handles|
        invariant closed == HandleSet(imported.handles[..i])
        invariant gem == before.(open := before.open - closed)
      {
        HandleSetPrefix(imported.handles, i);
        var handle := imported.handles[i];
        if handle == 0 || handle in closed {
          continue;
        }
        assert handle in imported.handles;
        gem := gem.Close(handle);
        closed := closed + {handle};
      }
      assert imported.handles[..|imported.handles|] == imported.handles;
    }

    method ImportFrame(frame: Frame, answers: Answers) returns (ok: bool, imported: Imported)
      requires Plausible(answers, gem)
      modifies this`gem
      ensures ok <==> ImportOf(frame, answers).Some?
      ensures ok <==>
        && 1 <= frame.planeCount <= 4 && answers.added.Some?
        && forall i | 0 <= i < frame.planeCount ::
             frame.fds[i] >= 0 && (frame.fds[i] in frame.fds[..i] || answers.primes[i].Some?)
      ensures ok ==>
        && Some(imported) == ImportOf(frame, answers) && imported.framebuffer == answers.added.value
        && |imported.handles| == 4
        // One handle for each file descriptor, given for the first plane that has it.
        && (forall i | 0 <= i < frame.planeCount && frame.fds[i] !in frame.fds[..i] ::
              answers.primes[i] == Some(imported.handles[i]))
        && (forall i, j | 0 <= i < j < frame.planeCount && frame.fds[i] == frame.fds[j] ::
              imported.handles[i] == imported.handles[j])
        && (forall i | frame.planeCount <= i < 4 :: imported.handles[i] == 0)
        && HandleSet(imported.handles) !! old(gem).open
        && gem == old(gem).(open := old(gem).open + HandleSet(imported.handles)).AddFramebuffer(imported.framebuffer)
      // A failed import gives everything back, except on the early return.
      ensures !ok ==> (gem == old(gem) <==> !Forgets(frame, answers.primes))
    {
      hide HandleSet, HandleAt, HandlesOf, Remembers;
      imported := Imported(0, [0, 0, 0, 0]);
      if frame.planeCount == 0 || frame.planeCount > 4 {
        return false, imported;
      }
      HandlesByFile(frame, answers.primes);
      var handles := [0, 0, 0, 0];
      NoHandles(handles);
      OneMoreHandle(frame, answers.primes, 0);
      NothingRemembered(frame, answers.primes);
      var importedFds: map<int, nat> := map[];
      var i := 0;
      while i < frame.planeCount
        invariant i <= frame.planeCount && |handles| == 4
        invariant handles == HandlesOf(frame, answers.primes, i)
        invariant Remembers(importedFds, frame, answers.primes, i)
        invariant HandleSet(handles) !! old(gem).open && (i > 0 <==> HandleSet(handles) != {})
          && 0 !in HandleSet(handles)
        invariant gem == old(gem).(open := old(gem).open + HandleSet(handles))
        invariant Walk(frame, answers.primes, 0) == Walk(frame, answers.primes, i)
      {
        var fd := frame.fds[i];
        if fd < 0 {
          if i > 0 {
            ghost var h :| h in HandleSet(handles);
            assert h in gem.open && h !in old(gem).open;
          } else {
            assert gem.open == old(gem).open;
          }
          return false, imported;
        }
        KnownHandle(importedFds, frame, answers.primes, i);
        OneMoreHandle(frame, answers.primes, i);
        if fd in importedFds {
          HandleSetAgain(handles, i, importedFds[fd]);
          handles := handles[i := importedFds[fd]];
          i := i + 1;
          continue;
        }
        if answers.primes[i].None? {
          imported := Imported(0, handles);
          DestroyImported(imported);
          assert gem.open == old(gem).open;
          return false, imported;
        }
        var handle := answers.primes[i].value;
        gem := gem.Open(handle);
        NewHandle(importedFds, frame, answers.primes, i);
        HandleSetNext(handles, i, handle);
        importedFds := importedFds[fd := handle];
        handles := handles[i := handle];
        i := i + 1;
      }
      imported := Imported(0, handles);
      if answers.added.None? {
        DestroyImported(imported);
        assert gem.open == old(gem).open;
        return false, imported;
      }
      gem := gem.AddFramebuffer(answers.added.value);
      imported := Imported(answers.added.value, handles);
      return true, imported;
    }

    method OldestOffScreen() returns (victim: nat)
      requires |cache| >= 2 && Separate(cache)
      ensures victim < |cache| && cache[victim].value.framebuffer != currentFramebuffer
      ensures forall e <- cache :: e.value.framebuffer == currentFramebuffer || cache[victim].lastUsed <= e.lastUsed
    {
      var found: Option<nat> := None;
      for i := 0 to |cache|
        invariant found.Some? ==> found.value < i && cache[found.value].value.framebuffer != currentFramebuffer
        invariant forall k | 0 <= k < i :: cache[k].value.framebuffer == currentFramebuffer
                                        || (found.Some? && cache[found.value].lastUsed <= cache[k].lastUsed)
      {
        if cache[i].value.framebuffer == currentFramebuffer {
          continue;
        }
        if found.None? || cache[i].lastUsed < cache[found.value].lastUsed {
          found := Some(i);
        }
      }
      // The fallback to the first entry is never needed: two entries cannot both
      // be on screen.
      assert cache[0].value.framebuffer != cache[1].value.framebuffer;
      return found.value;
    }

    method EraseEntry(victim: nat)
      requires Accounted() && victim < |cache|
      modifies this`cache, this`gem
      ensures Accounted() && cache == Without(old(cache), victim)
      ensures gem == Destroyed(old(gem), old(cache)[victim].value) && gem.open <= old(gem).open
    {
      hide Separate, DistinctStamps, DistinctKeys, HandleSet, AllHandles, AllFramebuffers;
      SeparateIds(cache);
      TotalsWithout(cache, victim);
      TotalsContain(cache);
      WithoutDistinct(cache, victim);
      DestroyImported(cache[victim].value);
      cache := cache[..victim] + cache[victim + 1..];
    }

    method EvictIfNeeded()
      requires Valid()
      modifies this`cache, this`gem
      ensures Accounted() && |cache| < MAX_FRAMEBUFFERS && OnScreenIsCached()
      ensures State() == Evicted(old(State()), protectOnScreen)
      ensures |old(cache)| < 12 ==> cache == old(cache) && gem == old(gem)
      ensures gem.open <= old(gem).open && gem.framebuffers <= old(gem).framebuffers
      ensures forall e <- cache :: e in old(cache)
      ensures protectOnScreen ==> OnScreenIsCurrent() && gem.removedOnScreen == old(gem).removedOnScreen
    {
      OrderLength(cache);
      if |cache| < MAX_FRAMEBUFFERS {
        return;
      }
      var victim;
      if protectOnScreen {
        victim := OldestOffScreen();
      } else {
        victim := Oldest(cache);
        OldestIsFirst(cache, victim);
      }
      hide Separate, DistinctStamps, DistinctKeys, HandleSet, AllHandles, AllFramebuffers, View, Without;
      SeparateIds(cache);
      WithoutDistinct(cache, victim);
      Drops(cache, victim, Skipping(protectOnScreen, currentFramebuffer));
      EraseEntry(victim);
    }

    method MakeFrameKey(frame: Frame, stats: seq<Option<FileId>>) returns (key: Option<FrameKey>)
      requires |stats| == 4
      ensures key == KeyOf(frame, stats) && (key.Some? <==> Identified(frame, stats))
    {
      if frame.planeCount == 0 || frame.planeCount > 4 {
        return None;
      }
      var files := [FileId(0, 0), FileId(0, 0), FileId(0, 0), FileId(0, 0)];
      for i := 0 to frame.planeCount
        invariant |files| == 4
        invariant forall k | 0 <= k < i :: frame.fds[k] >= 0 && stats[k].Some? && files[k] == stats[k].value
        invariant forall k | i <= k < 4 :: files[k] == FileId(0, 0)
      {
        if frame.fds[i] < 0 {
          return None;
        }
        if stats[i].None? {
          return None;
        }
        files := files[i := stats[i].value];
      }
      assert files == KeyOf(frame, stats).value.files;
      return Some(FrameKey(frame.width, frame.height, frame.format, frame.planeCount,
                           files, frame.strides, frame.offsets, frame.modifiers));
    }

    method Touch(v: nat)
      requires StampedBy(cache, frameSerial) && DistinctKeys(cache) && Separate(cache) && v < |cache|
      requires forall e <- cache :: e.lastUsed < frameSerial
      modifies this`cache
      ensures StampedBy(cache, frameSerial) && DistinctKeys(cache) && Separate(cache) && |cache| == |old(cache)|
      ensures AllHandles(cache) == AllHandles(old(cache)) && AllFramebuffers(cache) == AllFramebuffers(old(cache))
      ensures View(cache) == Touched(View(old(cache)), old(cache)[v].key)
      ensures |View(cache)| == |cache| && View(cache)[|cache| - 1] == (old(cache)[v].key, old(cache)[v].value)
      ensures cache == old(cache)[v := old(cache)[v].(lastUsed := frameSerial)]
    {
      Touches(cache, v, frameSerial);
      ghost var was := cache;
      cache := cache[v := cache[v].(lastUsed := frameSerial)];
      TotalsSame(was, cache);
    }

    method Store(entry: CacheEntry)
      requires Holds(AllHandles(cache) + HandleSet(entry.value.handles),
                     AllFramebuffers(cache) + {entry.value.framebuffer})
      requires entry.value.framebuffer != 0 && entry.value.framebuffer !in AllFramebuffers(cache)
      requires HandleSet(entry.value.handles) !! AllHandles(cache)
      requires forall e <- cache :: e.lastUsed < entry.lastUsed && e.key != entry.key
      requires entry.lastUsed == frameSerial
      modifies this`cache
      ensures Accounted() && cache == old(cache) + [entry]
      ensures View(cache) == View(old(cache)) + [(entry.key, entry.value)]
    {
      Appends(cache, entry);
      DistinctSnoc(cache, entry);
      TotalsWith(cache, entry);
      KeysSnoc(cache, entry, frameSerial);
      hide Separate, StampedBy, DistinctKeys, HandleSet, AllHandles, AllFramebuffers, View;
      cache := cache + [entry];
    }

    method FindOrImport(frame: Frame, answers: Answers) returns (found: Option<Imported>)
      requires Valid() && Plausible(answers, gem)
      modifies this`cache, this`gem, this`frameSerial, this`origins
      ensures Accounted() && |cache| <= 12 && OnScreenIsCached() && Recorded(cache, origins)
      ensures protectOnScreen ==> OnScreenIsCurrent() && gem.removedOnScreen == old(gem).removedOnScreen
      // What is found was imported from a frame of the same layout in the same files.
      ensures found.Some? ==>
        && found.value.framebuffer in origins
        && var origin := origins[found.value.framebuffer];
        && |origin.stats| == 4
        && origin.frame.width == frame.width && origin.frame.height == frame.height
        && origin.frame.format == frame.format && origin.frame.planeCount == frame.planeCount
        && origin.frame.strides == frame.strides && origin.frame.offsets == frame.offsets
        && origin.frame.modifiers == frame.modifiers
        && forall i | 0 <= i < 4 && i < frame.planeCount :: origin.stats[i] == answers.stats[i]
      // It is an earlier import if and only if there is one of this picture.
      ensures !Identified(frame, answers.stats) ==> found == None && gem == old(gem) && cache == old(cache)
      ensures Identified(frame, answers.stats) ==>
        if HasPicture(old(cache), old(origins), Source(frame, answers.stats)) then
          && found.Some? && found.value.framebuffer in old(gem).framebuffers
          && gem == old(gem) && origins == old(origins)
        else
          && found == ImportOf(frame, answers)
          && (found.Some? ==> found.value.framebuffer !in old(gem).framebuffers)
      ensures KeyOf(frame, answers.stats).None? ==>
        found == None && cache == old(cache) && gem == old(gem) && frameSerial == old(frameSerial)
      ensures KeyOf(frame, answers.stats).Some? ==>
        var key := KeyOf(frame, answers.stats).value;
        && frameSerial == old(frameSerial) + 1
        && State() == LookedUp(old(State()), key, ImportOf(frame, answers), protectOnScreen)
        && (found.Some? <==> old(HasKey(View(cache), key)) || ImportOf(frame, answers).Some?)
        && (found.Some? ==> View(cache) != [] && View(cache)[|View(cache)| - 1] == (key, found.value))
        && (found.Some? ==> exists e <- cache :: e.key == key && e.value == found.value)
        && (old(HasKey(View(cache), key)) ==> gem == old(gem))
      ensures gem.open <= old(gem).open + HandlesGiven(answers)
        && gem.framebuffers <= old(gem).framebuffers + IdGiven(answers)
    {
      hide Separate, DistinctStamps, DistinctKeys, HandleSet, AllHandles, AllFramebuffers, View, Walk, KeyOf, Touched,
        Dropped, Recorded, Identified, HasPicture, SamePicture;
      var key := MakeFrameKey(frame, answers.stats);
      if key.None? {
        return None;
      }
      frameSerial := frameSerial + 1;
      ViewKeys(cache, key.value);
      PictureCached(cache, origins, Source(frame, answers.stats));
      var hit := FindKey(cache, key.value);
      if hit.Some? {
        RecordedTouched(cache, hit.value, frameSerial, origins);
        FoundAgrees(cache, hit.value, origins, Source(frame, answers.stats));
        Touch(hit.value);
        assert cache[hit.value] in cache;
        return Some(cache[hit.value].value);
      }
      found := ImportNew(key.value, frame, answers);
    }

    /** The second half of find_or_import: make room, import, store. */
    method ImportNew(key: FrameKey, frame: Frame, answers: Answers) returns (found: Option<Imported>)
      requires Valid() && Plausible(answers, gem) && KeyOf(frame, answers.stats) == Some(key)
      requires !Cached(cache, key) && forall e <- cache :: e.lastUsed < frameSerial
      modifies this`cache, this`gem, this`origins
      ensures Accounted() && |cache| <= MAX_FRAMEBUFFERS && OnScreenIsCached() && Recorded(cache, origins)
      ensures protectOnScreen ==> OnScreenIsCurrent() && gem.removedOnScreen == old(gem).removedOnScreen
      ensures found == ImportOf(frame, answers)
      ensures found.Some? ==>
        && found.value.framebuffer !in old(gem).framebuffers
        && found.value.framebuffer in origins
        && origins[found.value.framebuffer] == Source(frame, answers.stats)
        && View(cache) != [] && View(cache)[|View(cache)| - 1] == (key, found.value)
        && exists e <- cache :: e.key == key && e.value == found.value
      ensures State()
        == var room := Evicted(old(State()), protectOnScreen);
           if found.Some? then room.(order := room.order + [(key, found.value)]) else room
      ensures gem.open <= old(gem).open + HandlesGiven(answers)
        && gem.framebuffers <= old(gem).framebuffers + IdGiven(answers)
    {
      hide Separate, DistinctStamps, DistinctKeys, HandleSet, AllHandles, AllFramebuffers, View, Walk, KeyOf, Dropped,
        Recorded;
      EvictIfNeeded();
      RecordedFewer(old(cache), cache, origins);
      KeyedFramesAreNotForgotten(frame, answers.stats, answers.primes, 0);
      var imported, ok;
      ok, imported := ImportFrame(frame, answers);
      if !ok {
        return None;
      }
      HandlesWereGiven(frame, answers);
      RecordedMore(cache, Entry(key, imported, frameSerial), origins, Source(frame, answers.stats));
      Store(Entry(key, imported, frameSerial));
      origins := origins[imported.framebuffer := Source(frame, answers.stats)];
      assert cache[|cache| - 1].key == key;
      return Some(imported);
    }

    method DestroyCache()
      requires Accounted()
      modifies this`cache, this`gem
      ensures Accounted() && cache == [] && gem.open == {} && gem.framebuffers == {} && View(cache) == []
      ensures var removed := old(gem).onScreen in AllFramebuffers(old(cache));
              && gem.onScreen == (if removed then 0 else old(gem).onScreen)
              && gem.removedOnScreen == old(gem).removedOnScreen + if removed then 1 else 0
    {
      hide HandleSet, StampedBy, DistinctKeys, Separate, AllHandles, AllFramebuffers;
      SeparateIds(cache);
      ghost var all := old(gem).framebuffers;
      assert cache[0..] == cache;
      for i := 0 to |cache|
        invariant cache == old(cache) && gem.violations == 0 && Separate(cache[i..])
        invariant gem.open == AllHandles(cache[i..]) && gem.framebuffers == AllFramebuffers(cache[i..])
        invariant var removed := old(gem).onScreen in all - gem.framebuffers;
          && gem.onScreen == (if removed then 0 else old(gem).onScreen)
          && gem.removedOnScreen == old(gem).removedOnScreen + if removed then 1 else 0
        invariant gem.framebuffers <= all && 0 !in all
      {
        DropFirst(cache, i);
        DestroyImported(cache[i].value);
      }
      assert cache[|cache|..] == [];
      NothingLeft(frameSerial);
      cache := [];
    }

    /** Showing a decoded frame on the video plane. */
    method Present(f: Shown) returns (ok: bool)
      requires Valid() && protectOnScreen && Plausible(f.answers, gem)
      modifies this
      ensures Valid() && State() == Presented(old(State()), f, true)
      ensures var switches := old(videoPlane) != Some((f.frame.format, f.frame.modifiers[0]));
        && (switches && !f.planeFound ==> !ok && cache == [] && currentFramebuffer == 0)
        && (ok ==> f.accepted && SamePicture(Source(f.frame, f.answers.stats), OriginOf(origins, currentFramebuffer)))
        && (ok ==> exists e <- cache ::
              Some(e.key) == KeyOf(f.frame, f.answers.stats) && e.value.framebuffer == currentFramebuffer)
        && (!ok ==> currentFramebuffer == if switches then 0 else old(currentFramebuffer))
        // What is on screen is removed only when the plane could not be turned off first.
        && gem.removedOnScreen == old(gem).removedOnScreen
             + if switches && old(currentFramebuffer) != 0 && !f.disabled then 1 else 0
    {
      hide Separate, StampedBy, DistinctKeys, HandleSet, AllHandles, AllFramebuffers, View, KeyOf, LookedUp, ImportOf;
      if videoPlane != PlaneOf(f) {
        if videoPlane.Some? && f.disabled {
          gem := gem.(onScreen := 0);
        }
        NoFramebufferIsZero();
        DestroyCache();
        currentFramebuffer := 0;
        if !f.planeFound {
          return false;
        }
        videoPlane := PlaneOf(f);
      }
      var imported := FindOrImport(f.frame, f.answers);
      if imported.None? {
        return false;
      }
      if !f.accepted {
        return false;
      }
      EntriesHaveFramebuffers();
      gem := gem.(onScreen := imported.value.framebuffer);
      currentFramebuffer := imported.value.framebuffer;
      return true;
    }

    /** The compositor's present, as far as its copy of the cache goes. */
    method PresentAtomic(f: Shown) returns (ok: bool)
      requires Valid() && !protectOnScreen && Plausible(f.answers, gem)
      modifies this
      ensures Valid() && State() == Presented(old(State()), f, false)
      ensures ok ==> f.ready && f.accepted
      ensures ok ==> SamePicture(Source(f.frame, f.answers.stats), OriginOf(origins, gem.onScreen))
      ensures ok ==> exists e <- cache ::
        Some(e.key) == KeyOf(f.frame, f.answers.stats) && e.value.framebuffer == gem.onScreen
      ensures gem.open <= old(gem).open + HandlesGiven(f.answers)
        && gem.framebuffers <= old(gem).framebuffers + IdGiven(f.answers)
    {
      hide Separate, StampedBy, DistinctKeys, HandleSet, AllHandles, AllFramebuffers, View, KeyOf, LookedUp, ImportOf;
      if videoPlane != PlaneOf(f) {
        videoPlane := None;
        NoFramebufferIsZero();
        currentFramebuffer := 0;
        DestroyCache();
        if !f.planeFound {
          return false;
        }
        videoPlane := PlaneOf(f);
      }
      if !f.ready {
        return false;
      }
      var imported := FindOrImport(f.frame, f.answers);
      if imported.None? {
        return false;
      }
      if !f.accepted {
        return false;
      }
      EntriesHaveFramebuffers();
      gem := gem.(onScreen := imported.value.framebuffer);
      currentFramebuffer := imported.value.framebuffer;
      return true;
    }

    lemma NoFramebufferIsZero()
      requires Separate(cache)
      ensures 0 !in AllFramebuffers(cache)
    {
      SeparateIds(cache);
    }

    lemma EntriesHaveFramebuffers()
      ensures forall e <- cache :: e.value.framebuffer in AllFramebuffers(cache)
    {
      TotalsContain(cache);
    }
  }

  // ----- Runs of the video plane -------------------------------------------------------

  /** The same call with every import refused. */
  function Refused(f: Shown): Shown {
    f.(answers := AnswerFields(f.answers.stats, [None, None, None, None], None))
  }

  /** Over any sequence of frames and answers, refusals included, both caches are the
      recency list that the calls make of the one before, with handles and framebuffers
      open exactly as recorded and none closed twice. Answers that the kernel cannot give
      in the state reached are replaced by refusals; done are the calls as answered. */
  method ShowAll(plane: ImportCache, frames: seq<Shown>) returns (ghost done: seq<Shown>)
    requires plane.Valid()
    modifies plane
    ensures |done| == |frames| && forall i | 0 <= i < |frames| :: done[i] == frames[i] || done[i] == Refused(frames[i])
    ensures plane.Valid() && plane.State() == Played(old(plane.State()), done, plane.protectOnScreen)
    ensures |plane.cache| <= MAX_FRAMEBUFFERS && plane.gem.violations == 0
    ensures plane.gem.open == AllHandles(plane.cache) && plane.gem.framebuffers == AllFramebuffers(plane.cache)
    ensures plane.protectOnScreen && (forall f <- frames :: f.disabled) ==>
      plane.gem.removedOnScreen == old(plane.gem).removedOnScreen
  {
    hide Separate, StampedBy, DistinctKeys, HandleSet, AllHandles, AllFramebuffers, KeyOf, View, Presented;
    done := [];
    for i := 0 to |frames|
      invariant plane.Valid() && plane.State() == Played(old(plane.State()), done, plane.protectOnScreen)
      invariant |done| == i && forall k | 0 <= k < i :: done[k] == frames[k] || done[k] == Refused(frames[k])
      invariant plane.protectOnScreen && (forall f <- frames :: f.disabled) ==>
        plane.gem.removedOnScreen == old(plane.gem).removedOnScreen
    {
      var f := if Plausible(frames[i].answers, plane.gem) then frames[i] else Refused(frames[i]);
      assert frames[i] in frames;
      ghost var next := done + [f];
      assert next[..|next| - 1] == done;
      if plane.protectOnScreen {
        var _ := plane.Present(f);
      } else {
        var _ := plane.PresentAtomic(f);
      }
      done := next;
    }
  }

  // ----- How the compositor loses the frame on screen ---------------------------------

  predicate Imports(f: Shown) {
    KeyOf(f.frame, f.answers.stats).Some? && ImportOf(f.frame, f.answers).Some?
  }

  /** A frame of the plane's own format that is imported but whose commit is refused. */
  predicate Unseen(f: Shown, plane: Option<(nat, nat)>) {
    plane == PlaneOf(f) && f.ready && !f.accepted && Imports(f)
  }

  ghost function EntryOf(f: Shown): (FrameKey, Imported)
    requires Imports(f)
  {
    (KeyOf(f.frame, f.answers.stats).value, ImportOf(f.frame, f.answers).value)
  }

  ghost function EntriesOf(run: seq<Shown>): seq<(FrameKey, Imported)>
    requires forall f <- run :: Imports(f)
  {
    seq(|run|, i requires 0 <= i < |run| => EntryOf(run[i]))
  }

  /** Different keys, and real framebuffers of which only the one at p is on screen. */
  ghost predicate OnlyOneShown(order: seq<(FrameKey, Imported)>, onScreen: nat, p: nat) {
    && p < |order| && onScreen != 0
    && (forall i, j | 0 <= i < j < |order| :: order[i].0 != order[j].0)
    && (forall i | 0 <= i < |order| :: order[i].1.framebuffer != 0 && (order[i].1.framebuffer == onScreen <==> i == p))
  }

  function Latest(order: seq<(FrameKey, Imported)>): seq<(FrameKey, Imported)> {
    if |order| <= MAX_FRAMEBUFFERS then order else order[|order| - MAX_FRAMEBUFFERS..]
  }

  /** While commits of new frames are refused, the compositor's cache goes on evicting:
      the entry on screen, at place p of n, is lost exactly when the new frames outnumber
      the free places and the entries used before it, m > 12 - n + p. */
  lemma {:induction false} RefusedFramesPushOut(l: Listing, run: seq<Shown>, p: nat)
    requires |l.order| <= MAX_FRAMEBUFFERS && forall f <- run :: Imports(f) && Unseen(f, l.plane)
    requires p < |l.order| && OnlyOneShown(l.order + EntriesOf(run), l.onScreen, p)
    ensures var lost := |run| > MAX_FRAMEBUFFERS - |l.order| + p;
      Played(l, run, false) == Listing(Latest(l.order + EntriesOf(run)), if lost then 0 else l.onScreen, l.plane,
                                       l.removed + if lost then 1 else 0)
  {
    var all := l.order + EntriesOf(run);
    if run == [] {
      assert all == l.order;
    } else {
      var front, f := run[..|run| - 1], run[|run| - 1];
      var before := l.order + EntriesOf(front);
      assert f in run && all == before + [EntryOf(f)];
      EarlierShown(before, EntryOf(f), l.onScreen, p);
      RefusedFramesPushOut(l, front, p);
      OneMoreRefused(Played(l, front, false), f, before, l.onScreen, p);
    }
  }

  lemma EarlierShown(before: seq<(FrameKey, Imported)>, e: (FrameKey, Imported), onScreen: nat, p: nat)
    requires p < |before| && OnlyOneShown(before + [e], onScreen, p)
    ensures OnlyOneShown(before, onScreen, p)
  {
    var all := before + [e];
    assert forall i | 0 <= i < |before| :: before[i] == all[i];
  }

  lemma OneMoreRefused(l: Listing, f: Shown, before: seq<(FrameKey, Imported)>, onScreen: nat, p: nat)
    requires Unseen(f, l.plane) && OnlyOneShown(before + [EntryOf(f)], onScreen, p) && p < |before|
    requires l.order == Latest(before) && l.onScreen == if |before| > MAX_FRAMEBUFFERS + p then 0 else onScreen
    ensures Presented(l, f, false)
      == l.(order := Latest(before + [EntryOf(f)]),
            onScreen := if |before| + 1 > MAX_FRAMEBUFFERS + p then 0 else onScreen,
            removed := l.removed + if |before| == MAX_FRAMEBUFFERS + p then 1 else 0)
  {
    hide KeyOf, ImportOf;
    var all, e := before + [EntryOf(f)], EntryOf(f);
    var skip := if |before| <= MAX_FRAMEBUFFERS then 0 else |before| - MAX_FRAMEBUFFERS;
    forall i | 0 <= i < |l.order| ensures l.order[i] == all[skip + i] {
    }
    assert all[|before|] == e && !HasKey(l.order, e.0);
    if |before| >= MAX_FRAMEBUFFERS {
      assert Dropped(l.order, Skipping(false, l.onScreen)) == l.order[1..];
      assert Latest(all) == l.order[1..] + [e];
    } else {
      assert Latest(all) == l.order + [e];
    }
  }

  /** Frame number k of a stream: one plane, its own file, handle and framebuffer. */
  function Sample(k: nat): Shown {
    Shown(FrameFields(1, 1, 0, 1, [3, -1, -1, -1], [4, 0, 0, 0], [0, 0, 0, 0], [0, 0, 0, 0]),
          AnswerFields([Some(FileId(0, k)), None, None, None], [Some(k + 1), None, None, None], Some(k + 1)),
          true, true, true, k == 0)
  }

  /** The compositor shows one frame, the commits of the next twelve are refused, and the
      frame on screen is gone. */
  method TwelveRefusedFrames() returns (c: ImportCache)
    ensures fresh(c) && c.Valid() && !c.protectOnScreen
    ensures c.gem.removedOnScreen == 1 && c.gem.onScreen == 0
  {
    hide AllHandles, AllFramebuffers, View, Presented, Plausible;
    c := new ImportCache(false);
    ghost var run: seq<Shown> := [];
    ghost var start := c.State();
    for k := 0 to 13
      invariant fresh(c) && c.Valid() && !c.protectOnScreen
      invariant (forall h <- c.gem.open :: h <= k) && (forall h <- c.gem.framebuffers :: h <= k)
      invariant run == seq(k, i requires 0 <= i < k => Sample(i)) && c.State() == Played(start, run, false)
    {
      SampleIsNew(k, c.gem);
      ghost var next := run + [Sample(k)];
      assert next[..|next| - 1] == run;
      var _ := c.PresentAtomic(Sample(k));
      run := next;
    }
    SamplesPushOut(run);
  }

  lemma SampleIsNew(k: nat, gem: Gem)
    requires (forall h <- gem.open :: h <= k) && (forall h <- gem.framebuffers :: h <= k)
    requires gem.onScreen == 0 || gem.onScreen in gem.framebuffers
    ensures Plausible(Sample(k).answers, gem)
    ensures HandlesGiven(Sample(k).answers) <= {k + 1} && IdGiven(Sample(k).answers) == {k + 1}
  {
  }

  function FilesOf(k: nat): seq<FileId> {
    [FileId(0, k), FileId(0, 0), FileId(0, 0), FileId(0, 0)]
  }

  lemma SampleImports(k: nat)
    ensures KeyOf(Sample(k).frame, Sample(k).answers.stats).Some?
    ensures KeyOf(Sample(k).frame, Sample(k).answers.stats).value.files == FilesOf(k)
    ensures ImportOf(Sample(k).frame, Sample(k).answers).Some?
    ensures ImportOf(Sample(k).frame, Sample(k).answers).value.framebuffer == k + 1
  {
    assert Walk(Sample(k).frame, Sample(k).answers.primes, 1).AllPlanes?;
  }

  lemma {:induction false} PlayedOn(l: Listing, f: Shown, run: seq<Shown>, protect: bool)
    ensures Played(l, [f] + run, protect) == Played(Presented(l, f, protect), run, protect)
    decreases |run|
  {
    var all := [f] + run;
    if run == [] {
      assert all == [f] && all[..0] == [];
    } else {
      assert all[..|all| - 1] == [f] + run[..|run| - 1];
      PlayedOn(l, f, run[..|run| - 1], protect);
    }
  }

  lemma SamplesPushOut(run: seq<Shown>)
    requires run == seq(13, i requires 0 <= i < 13 => Sample(i))
    ensures Played(Listing([], 0, None, 0), run, false).removed == 1
    ensures Played(Listing([], 0, None, 0), run, false).onScreen == 0
  {
    hide KeyOf, ImportOf, Played, Presented, Latest;
    var empty, later := Listing([], 0, None, 0), run[1..];
    assert run == [Sample(0)] + later;
    PlayedOn(empty, Sample(0), later, false);
    FirstSampleShown();
    SamplesUnseen(later);
    var shown := Presented(empty, Sample(0), false);
    RefusedFramesPushOut(shown, later, 0);
  }

  lemma FirstSampleShown()
    ensures Imports(Sample(0))
    ensures EntryOf(Sample(0)).1.framebuffer == 1
    ensures Presented(Listing([], 0, None, 0), Sample(0), false)
      == Listing([EntryOf(Sample(0))], 1, PlaneOf(Sample(0)), 0)
  {
    hide KeyOf, ImportOf;
    SampleImports(0);
    assert [] + [EntryOf(Sample(0))] == [EntryOf(Sample(0))];
  }

  lemma SamplesUnseen(later: seq<Shown>)
    requires |later| == 12 && forall i | 0 <= i < 12 :: later[i] == Sample(i + 1)
    ensures Imports(Sample(0)) && forall f <- later :: Imports(f) && Unseen(f, PlaneOf(Sample(0)))
    ensures OnlyOneShown([EntryOf(Sample(0))] + EntriesOf(later), 1, 0)
  {
    hide KeyOf, ImportOf;
    forall k: nat | k < 13
      ensures Imports(Sample(k)) && EntryOf(Sample(k)).0.files == FilesOf(k)
      ensures EntryOf(Sample(k)).1.framebuffer == k + 1
    {
      SampleImports(k);
    }
    var all := [EntryOf(Sample(0))] + EntriesOf(later);
    forall i: nat | i < 13 ensures all[i] == EntryOf(Sample(i)) {
    }
    forall i, j | 0 <= i < j < 13 ensures all[i].0 != all[j].0 {
      assert FilesOf(i)[0] != FilesOf(j)[0];
      assert all[i].0.files == FilesOf(i) && all[j].0.files == FilesOf(j);
    }
  }

  // ----- The GLES renderer's images ------------------------------------------------------

  /** A frame as the GLES renderer sees it. */
  datatype GlesFrame = GlesFrame(frame: Frame, yuvColorSpace: nat, yuvRange: nat)

  /** The same image: the same layout of the luma plane's file, and the same colours. */
  predicate SameImage(a: GlesFrame, file: FileId, b: GlesFrame, other: FileId) {
    && file == other && a.frame.width == b.frame.width && a.frame.height == b.frame.height
    && a.frame.format == b.frame.format && a.frame.planeCount == b.frame.planeCount
    && a.yuvColorSpace == b.yuvColorSpace && a.yuvRange == b.yuvRange
    && forall i | 0 <= i < 4 && i < a.frame.planeCount ::
         && a.frame.strides[i] == b.frame.strides[i] && a.frame.offsets[i] == b.frame.offsets[i]
         && a.frame.modifiers[i] == b.frame.modifiers[i]
  }

  /** The entries of the planes in use, 0 for the rest. */
  function InUse(s: seq<nat>, count: nat): seq<nat>
    requires |s| == 4
  {
    seq(4, i requires 0 <= i < 4 => if i < count then s[i] else 0)
  }

  function ImageKeyOf(f: GlesFrame, file: FileId): ImageKey {
    var count := f.frame.planeCount;
    ImageKey(file, f.frame.width, f.frame.height, f.frame.format, count, InUse(f.frame.strides, count),
             InUse(f.frame.offsets, count), InUse(f.frame.modifiers, count), f.yuvColorSpace, f.yuvRange)
  }

  lemma ImageKeyTellsImage(a: GlesFrame, file: FileId, b: GlesFrame, other: FileId)
    ensures ImageKeyOf(a, file) == ImageKeyOf(b, other) <==> SameImage(a, file, b, other)
  {
    var k, l := ImageKeyOf(a, file), ImageKeyOf(b, other);
    if k == l {
      forall i | 0 <= i < 4 && i < a.frame.planeCount
        ensures a.frame.strides[i] == b.frame.strides[i] && a.frame.offsets[i] == b.frame.offsets[i]
        ensures a.frame.modifiers[i] == b.frame.modifiers[i]
      {
        assert k.strides[i] == l.strides[i] && k.offsets[i] == l.offsets[i] && k.modifiers[i] == l.modifiers[i];
      }
    }
    if SameImage(a, file, b, other) {
      assert k.strides == l.strides && k.offsets == l.offsets && k.modifiers == l.modifiers;
    }
  }

  /** What each image was imported from. */
  ghost predicate Drawn(images: seq<ImageEntry>, origins: map<Image, (GlesFrame, FileId)>) {
    forall i | 0 <= i < |images| :: images[i].value in origins
      && images[i].key == ImageKeyOf(origins[images[i].value].0, origins[images[i].value].1)
  }

  function DrawnFrom(origins: map<Image, (GlesFrame, FileId)>, image: Image): (GlesFrame, FileId) {
    if image in origins then origins[image] else (GlesFrame(NO_FRAME, 0, 0), FileId(0, 0))
  }

  ghost predicate HasImage(images: seq<ImageEntry>, origins: map<Image, (GlesFrame, FileId)>, f: GlesFrame,
                           file: FileId) {
    exists i :: 0 <= i < |images|
      && SameImage(f, file, DrawnFrom(origins, images[i].value).0, DrawnFrom(origins, images[i].value).1)
  }

  lemma ImageCached(images: seq<ImageEntry>, origins: map<Image, (GlesFrame, FileId)>, f: GlesFrame, file: FileId)
    requires Drawn(images, origins)
    ensures Cached(images, ImageKeyOf(f, file)) <==> HasImage(images, origins, f, file)
  {
    hide ImageKeyOf, SameImage;
    forall i | 0 <= i < |images|
      ensures var from := DrawnFrom(origins, images[i].value);
        images[i].key == ImageKeyOf(f, file) <==> SameImage(f, file, from.0, from.1)
    {
      var from := DrawnFrom(origins, images[i].value);
      ImageKeyTellsImage(f, file, from.0, from.1);
    }
  }

  lemma ImageFound(images: seq<ImageEntry>, origins: map<Image, (GlesFrame, FileId)>, image: Image, f: GlesFrame,
                   file: FileId)
    requires Drawn(images, origins) && f.frame.planeCount <= 4
    requires exists e <- images :: e.key == ImageKeyOf(f, file) && e.value == image
    ensures image in origins
    ensures var (g, other) := origins[image];
      && other == file && g.frame.width == f.frame.width && g.frame.height == f.frame.height
      && g.frame.format == f.frame.format && g.frame.planeCount == f.frame.planeCount
      && g.yuvColorSpace == f.yuvColorSpace && g.yuvRange == f.yuvRange
      && forall i | 0 <= i < f.frame.planeCount ::
           && g.frame.strides[i] == f.frame.strides[i] && g.frame.offsets[i] == f.frame.offsets[i]
           && g.frame.modifiers[i] == f.frame.modifiers[i]
  {
    hide ImageKeyOf;
    var k :| 0 <= k < |images| && images[k].key == ImageKeyOf(f, file) && images[k].value == image;
    var (g, other) := origins[image];
    ImageKeyTellsImage(f, file, g, other);
  }

  /** Each entry now is one of before, or the new image under the key. */
  ghost predicate GrownFrom(before: seq<ImageEntry>, now: seq<ImageEntry>, key: ImageKey, created: Option<Image>) {
    forall i | 0 <= i < |now| :: ComesFrom(now[i], before, key, created)
  }

  ghost predicate ComesFrom(e: ImageEntry, before: seq<ImageEntry>, key: ImageKey, created: Option<Image>) {
    || (exists k :: 0 <= k < |before| && before[k].key == e.key && before[k].value == e.value)
    || (created == Some(e.value) && e.key == key)
  }

  lemma NotGrown(images: seq<ImageEntry>, key: ImageKey)
    ensures GrownFrom(images, images, key, None)
  {
  }

  lemma GrownByTouch(before: seq<ImageEntry>, now: seq<ImageEntry>, v: nat, key: ImageKey)
    requires v < |before| == |now|
    requires forall i | 0 <= i < |before| :: now[i].key == before[i].key && now[i].value == before[i].value
    ensures GrownFrom(before, now, key, None)
  {
  }

  lemma GrownByStore(before: seq<ImageEntry>, longer: seq<ImageEntry>, now: seq<ImageEntry>, key: ImageKey,
                     created: Image)
    requires |longer| == |before| + 1 && longer[..|before|] == before
    requires longer[|before|].key == key && longer[|before|].value == created
    requires forall e <- now :: e in longer
    ensures GrownFrom(before, now, key, Some(created))
  {
    forall i | 0 <= i < |now| ensures ComesFrom(now[i], before, key, Some(created)) {
      assert now[i] in now && now[i] in longer;
      var k :| 0 <= k < |longer| && longer[k] == now[i];
      if k < |before| {
        assert before[k] == longer[..|before|][k];
      }
    }
  }

  lemma DrawnGrows(before: seq<ImageEntry>, now: seq<ImageEntry>, origins: map<Image, (GlesFrame, FileId)>,
                   f: GlesFrame, file: FileId, created: Option<Image>)
    requires Drawn(before, origins) && GrownFrom(before, now, ImageKeyOf(f, file), created)
    requires created.Some? ==> forall i | 0 <= i < |before| :: before[i].value != created.value
    ensures Drawn(now, if created.Some? then origins[created.value := (f, file)] else origins)
  {
    hide ImageKeyOf;
    var next := if created.Some? then origins[created.value := (f, file)] else origins;
    forall i | 0 <= i < |now|
      ensures now[i].value in next && now[i].key == ImageKeyOf(next[now[i].value].0, next[now[i].value].1)
    {
      assert ComesFrom(now[i], before, ImageKeyOf(f, file), created);
      if k :| 0 <= k < |before| && before[k].key == now[i].key && before[k].value == now[i].value {
        assert before[k].value in origins;
      }
    }
  }

  /** make_key of the GLES renderer: the luma plane's file and the layout of the
      planes in use. */
  datatype ImageKey = ImageKey(file: FileId, width: nat, height: nat, format: nat, planeCount: nat,
                               strides: seq<nat>, offsets: seq<nat>, modifiers: seq<nat>,
                               yuvColorSpace: nat, yuvRange: nat)

  /** An EGLImage and the texture bound to it. */
  datatype Image = Image(image: nat, texture: nat)

  type ImageEntry = Entry<ImageKey, Image>

  ghost predicate DistinctImages(images: seq<ImageEntry>) {
    forall i, j | 0 <= i < j < |images| :: images[i].value != images[j].value
  }

  class ImageCache {
    var images: seq<ImageEntry>
    var serial: nat
    // The environment: images created and not yet destroyed.
    var live: set<Image>
    var violations: nat
    ghost var origins: map<Image, (GlesFrame, FileId)>

    constructor ()
      ensures Valid() && images == [] && serial == 0 && Drawn(images, origins)
    {
      images, serial, live, violations, origins := [], 0, {}, 0, map[];
    }

    ghost predicate Valid()
      reads this
    {
      Tracked() && |images| <= MAX_IMAGES
    }

    ghost predicate Tracked()
      reads this
    {
      && StampedBy(images, serial) && DistinctKeys(images)
      && live == (set e <- images :: e.value)
      && DistinctImages(images)
      && violations == 0
    }

    method Erase(victim: nat)
      requires Tracked() && victim < |images|
      modifies this`images, this`live, this`violations
      ensures Tracked() && images == Without(old(images), victim)
      ensures forall e <- images :: e in old(images)
    {
      WithoutDistinct(images, victim);
      ghost var was := images;
      var image := images[victim].value;
      assert images[victim] in images;
      violations := violations + if image in live then 0 else 1;
      live := live - {image};
      images := images[..victim] + images[victim + 1..];
      LiveWithout(was, victim);
    }

    method EvictIfNeeded()
      requires Tracked() && |images| <= MAX_IMAGES + 1
      requires images != [] && images[|images| - 1].lastUsed == serial
      modifies this`images, this`live, this`violations
      ensures Valid() && images != [] && images[|images| - 1] == old(images)[|old(images)| - 1]
      ensures View(images) == if |old(images)| > MAX_IMAGES then View(old(images))[1..] else View(old(images))
      ensures forall e <- images :: e in old(images)
      ensures |old(images)| <= 16 ==> images == old(images)
    {
      hide StampedBy, DistinctKeys, Without;
      ghost var last := images[|images| - 1];
      while |images| > MAX_IMAGES
        invariant Tracked() && images != [] && images[|images| - 1] == last && |images| <= MAX_IMAGES + 1
        invariant View(images) == if |images| == |old(images)| then View(old(images)) else View(old(images))[1..]
        invariant |images| == |old(images)| || (|images| == |old(images)| - 1 && |old(images)| > MAX_IMAGES)
        invariant (forall e <- images :: e in old(images)) && (|images| == |old(images)| ==> images == old(images))
        decreases |images|
      {
        var oldest := Oldest(images);
        NewestIsNotOldest(images, serial, oldest);
        StampsDiffer(images, serial);
        Drops(images, oldest, (p: (ImageKey, Image)) => false);
        OldestIsFirst(images, oldest);
        DropFirstOf(View(images));
        WithoutLast(images, oldest);
        Erase(oldest);
      }
    }

    /** find_or_import: insert, then evict; the image returned is the one asked for
        and the most recently used. There is no key when the luma plane has no
        file or fstat fails. */
    method FindOrImport(identity: Option<ImageKey>, created: Option<Image>) returns (found: Option<Image>)
      requires Valid() && (created.Some? ==> created.value !in live)
      modifies this`images, this`serial, this`live, this`violations
      ensures Valid() && |images| <= 16
      ensures identity.Some? ==>
        GrownFrom(old(images), images, identity.value, if old(Cached(images, identity.value)) then None else created)
      ensures |old(images)| < 16 ==> |images| >= |old(images)|
      ensures identity.None? ==> found == None && images == old(images) && serial == old(serial) && live == old(live)
      ensures identity.Some? ==> var key := identity.value;
        && (old(Cached(images, key)) ==>
            found.Some? && View(images) == Touched(View(old(images)), key) && live == old(live))
        && (!old(Cached(images, key)) && created.None? ==>
              found == None && images == old(images) && serial == old(serial) && live == old(live))
        && (!old(Cached(images, key)) && created.Some? ==>
              && found == created
              && var longer := View(old(images)) + [(key, created.value)];
                 View(images) == if |old(images)| == MAX_IMAGES then longer[1..] else longer)
        && (found.Some? ==> exists e <- images :: e.key == key && e.value == found.value)
    {
      hide GrownFrom, DistinctImages, View, Touched;
      if identity.None? {
        return None;
      }
      var key := identity.value;
      var hit := FindKey(images, key);
      if hit.Some? {
        found := Touch(hit.value);
        GrownByTouch(old(images), images, hit.value, key);
        return;
      }
      if created.None? {
        NotGrown(images, key);
        return None;
      }
      serial := serial + 1;
      Store(Entry(key, created.value, serial));
      ghost var longer := images;
      EvictIfNeeded();
      GrownByStore(old(images), longer, images, key, created.value);
      assert images[|images| - 1] in images;
      return Some(images[|images| - 1].value);
    }

    /** make_key: the luma plane's file and the layout of the planes in use. */
    method MakeKey(f: GlesFrame, stat: Option<FileId>) returns (key: Option<ImageKey>)
      requires f.frame.planeCount <= 4
      ensures key == if f.frame.fds[0] < 0 || stat.None? then None else Some(ImageKeyOf(f, stat.value))
    {
      if f.frame.fds[0] < 0 {
        return None;
      }
      if stat.None? {
        return None;
      }
      var strides, offsets, modifiers := [0, 0, 0, 0], [0, 0, 0, 0], [0, 0, 0, 0];
      for plane := 0 to f.frame.planeCount
        invariant strides == InUse(f.frame.strides, plane) && offsets == InUse(f.frame.offsets, plane)
        invariant modifiers == InUse(f.frame.modifiers, plane)
      {
        strides := strides[plane := f.frame.strides[plane]];
        offsets := offsets[plane := f.frame.offsets[plane]];
        modifiers := modifiers[plane := f.frame.modifiers[plane]];
      }
      return Some(ImageKey(stat.value, f.frame.width, f.frame.height, f.frame.format, f.frame.planeCount,
                           strides, offsets, modifiers, f.yuvColorSpace, f.yuvRange));
    }

    /** find_or_import for a frame: an earlier image if and only if there is one of this
        layout in this file; draw admits frames of two planes only. */
    method FindImage(f: GlesFrame, stat: Option<FileId>, created: Option<Image>) returns (found: Option<Image>)
      requires Valid() && Drawn(images, origins) && f.frame.planeCount <= 4
      requires created.Some? ==> created.value !in live
      modifies this
      ensures Valid() && Drawn(images, origins)
      ensures f.frame.fds[0] < 0 || stat.None? ==> found == None && images == old(images)
      ensures found.Some? ==>
        && found.value in origins && stat.Some?
        && var (g, file) := origins[found.value];
        && file == stat.value && g.frame.width == f.frame.width && g.frame.height == f.frame.height
        && g.frame.format == f.frame.format && g.frame.planeCount == f.frame.planeCount
        && g.yuvColorSpace == f.yuvColorSpace && g.yuvRange == f.yuvRange
        && forall i | 0 <= i < f.frame.planeCount ::
             && g.frame.strides[i] == f.frame.strides[i] && g.frame.offsets[i] == f.frame.offsets[i]
             && g.frame.modifiers[i] == f.frame.modifiers[i]
      ensures f.frame.fds[0] >= 0 && stat.Some? ==>
        if HasImage(old(images), old(origins), f, stat.value) then
          found.Some? && found.value in old(live) && live == old(live) && origins == old(origins)
        else found == created
    {
      hide GrownFrom, View, Drawn, ImageKeyOf, SameImage, HasImage;
      var key := MakeKey(f, stat);
      if key.None? {
        return None;
      }
      ImageCached(images, origins, f, stat.value);
      ghost var before, hit := images, Cached(images, key.value);
      found := FindOrImport(key, created);
      DrawnGrows(before, images, origins, f, stat.value, if hit then None else created);
      if !hit && created.Some? {
        origins := origins[created.value := (f, stat.value)];
      }
      if found.Some? {
        ImageFound(images, origins, found.value, f, stat.value);
      }
    }

    method Touch(v: nat) returns (found: Option<Image>)
      requires Valid() && v < |images|
      modifies this`images, this`serial
      ensures Valid() && View(images) == Touched(View(old(images)), old(images)[v].key)
      ensures found.Some? && exists e <- images :: e.key == old(images)[v].key && e.value == found.value
      ensures images == old(images)[v := old(images)[v].(lastUsed := serial)] && found == Some(old(images)[v].value)
    {
      serial := serial + 1;
      Touches(images, v, serial);
      ghost var was := images;
      images := images[v := images[v].(lastUsed := serial)];
      assert images[v] in images;
      SameValues(was, images);
      return Some(images[v].value);
    }

    method Store(entry: ImageEntry)
      requires Tracked() && entry.value !in live && entry.lastUsed == serial
      requires forall e <- images :: e.lastUsed < serial && e.key != entry.key
      modifies this`images, this`live
      ensures Tracked() && images == old(images) + [entry]
      ensures View(images) == View(old(images)) + [(entry.key, entry.value)]
    {
      hide DistinctImages, DistinctStamps;
      Appends(images, entry);
      DistinctSnoc(images, entry);
      LiveWith(images, entry);
      images := images + [entry];
      live := live + {entry.value};
    }
  }

  // ----- Runs of the GLES renderer ------------------------------------------------------

  /** One call of find_or_import: the frame's identity, if it has one, and the image that
      importing it creates, if it does. */
  datatype Lookup = Lookup(identity: Option<ImageKey>, created: Option<Image>)

  ghost function After(order: seq<(ImageKey, Image)>, call: Lookup): seq<(ImageKey, Image)> {
    if call.identity.None? then order
    else if HasKey(order, call.identity.value) then Touched(order, call.identity.value)
    else if call.created.None? then order
    else
      var longer := order + [(call.identity.value, call.created.value)];
      if |longer| > MAX_IMAGES then longer[1..] else longer
  }

  ghost function AfterAll(order: seq<(ImageKey, Image)>, calls: seq<Lookup>): seq<(ImageKey, Image)> {
    if calls == [] then order else After(AfterAll(order, calls[..|calls| - 1]), calls[|calls| - 1])
  }

  /** Over any sequence of lookups the images are the recency list of sixteen that they
      make. An image that exists already cannot be created; done are the calls as answered. */
  method FindAll(images: ImageCache, calls: seq<Lookup>) returns (ghost done: seq<Lookup>)
    requires images.Valid()
    modifies images
    ensures images.Valid() && |done| == |calls|
    ensures forall i | 0 <= i < |calls| :: done[i] == calls[i] || done[i] == calls[i].(created := None)
    ensures View(images.images) == AfterAll(View(old(images.images)), done)
  {
    hide View, Touched, GrownFrom;
    done := [];
    for i := 0 to |calls|
      invariant images.Valid() && |done| == i
      invariant forall k | 0 <= k < i :: done[k] == calls[k] || done[k] == calls[k].(created := None)
      invariant View(images.images) == AfterAll(View(old(images.images)), done)
    {
      var call := calls[i];
      if call.created.Some? && call.created.value in images.live {
        call := call.(created := None);
      }
      if call.identity.Some? {
        ViewKeys(images.images, call.identity.value);
      }
      ghost var next := done + [call];
      assert next[..|next| - 1] == done;
      var _ := images.FindOrImport(call.identity, call.created);
      done := next;
    }
  }

  lemma LiveWithout(images: seq<ImageEntry>, v: nat)
    requires v < |images| && DistinctImages(images)
    ensures (set e <- Without(images, v) :: e.value) == (set e <- images :: e.value) - {images[v].value}
    ensures DistinctImages(Without(images, v))
  {
    var rest := Without(images, v);
    forall i | 0 <= i < |images| && i != v ensures images[i].value in set e <- rest :: e.value {
      assert rest[if i < v then i else i - 1] == images[i];
    }
  }

  lemma LiveWith(images: seq<ImageEntry>, e: ImageEntry)
    requires DistinctImages(images) && e.value !in set x <- images :: x.value
    ensures DistinctImages(images + [e])
    ensures (set x <- images + [e] :: x.value) == (set x <- images :: x.value) + {e.value}
  {
    var more := images + [e];
    assert more[|images|] == e;
    assert forall i | 0 <= i < |images| :: images[i] in images;
    forall i | 0 <= i < |images| ensures images[i].value in set x <- more :: x.value {
      assert more[i] == images[i];
    }
  }

  lemma SameValues(a: seq<ImageEntry>, b: seq<ImageEntry>)
    requires |a| == |b| && forall i | 0 <= i < |a| :: a[i].value == b[i].value
    ensures (set e <- a :: e.value) == (set e <- b :: e.value)
  {
    forall i | 0 <= i < |a| ensures a[i].value in (set e <- b :: e.value) && b[i].value in (set e <- a :: e.value) {
      assert a[i] in a && b[i] in b;
    }
  }

  lemma NewestIsNotOldest(images: seq<ImageEntry>, serial: nat, v: nat)
    requires StampedBy(images, serial) && |images| >= 2 && images[|images| - 1].lastUsed == serial
    requires v < |images| && forall e <- images :: images[v].lastUsed <= e.lastUsed
    ensures v < |images| - 1
  {
    assert images[0] in images;
  }

  lemma StampsDiffer(images: seq<ImageEntry>, serial: nat)
    requires StampedBy(images, serial)
    ensures DistinctStamps(images)
  {
  }

  lemma DropFirstOf<T>(order: seq<T>)
    requires order != []
    ensures Dropped(order, (p: T) => false) == order[1..]
  {
  }

  lemma WithoutLast(images: seq<ImageEntry>, v: nat)
    requires v < |images| - 1
    ensures var rest := Without(images, v); |rest| == |images| - 1 && rest[|rest| - 1] == images[|images| - 1]
  {
  }
}
