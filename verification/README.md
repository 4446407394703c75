# Verified model of OpenHD Glide's protocols, buffers and tiles

OpenHD Glide is a ground-station display: it receives MAVLink telemetry, shows decoded
video on a KMS plane with a rendered "Flow" overlay above it, draws offline maps made
beforehand from OpenStreetMap data, and lets its processes talk over line-based sockets.
This project models the parts of it that are step machines or loops over unbounded input
and proves what they promise. Objects whose methods update fields are classes with those
fields; loops over buffers are loops with invariants; pure code is functions. Everything
outside the program (sockets, GBM, the kernel, EGL, zlib, the projection) answers through
parameters, and every theorem holds for all answers.

| file | subject |
|---|---|
| `MavlinkCrc.dfy`, `MavlinkFraming.dfy` | the MAVLink checksum, the datagram and stream parsers, the two senders |
| `FlowBuffers.dfy` | GBM buffers of the atomic compositor: locked, pending, current, scanned out |
| `RecencyCache.dfy`, `FramebufferCache.dfy` | the timestamp caches of imported video frames and their GEM handles |
| `Raster.dfy`, `Png.dfy`, `TileAtlas.dfy`, `MapRenderer.dfy` | drawing map lines, PNG files, cutting and reassembling tiles, the atlas cache |
| `LineIpc.dfy` | line framing for one server and any number of clients |
| `RtpFixture.dfy` | the fixture file of recorded RTP packets and its replay |
| `Letterbox.dfy`, `InFormats.dfy` | the scaled video rectangle, the IN_FORMATS table |
| `Bytes.dfy`, `Arithmetic.dfy` | shared definitions |

## How the proofs are set up

* *Framing.* A byte string is read as skipped bytes, whole frames and an unreadable rest.
  That reading is unique, both parsers find it, and cutting the string into chunks does not
  change it; packets of both senders are such frames.
* *Buffers.* The compositor's fields are tied to a small kernel: the set of locked buffers,
  the buffer behind each framebuffer id, what the Flow plane shows and what a pending flip
  will show. Counters in it record any double lock, wrong release, commit during a flip and
  release of a buffer that may be on screen; the contracts say what these counters do.
* *Caches.* A cache whose entries carry time stamps is compared with a plain list in order
  of use: a hit moves an entry to the end, an eviction takes the first that may go. Whole runs
  are folds of one step on that list, with the framebuffer on screen beside it.
* *Lines drawn.* The drawn points are defined without the loop, by rounding the exact line;
  the loop is shown to visit exactly these.
* *Lines sent.* The lines of a byte stream are defined byte by byte; `drain_lines`, `poll`
  and whole runs of the server are compared with that.

* *Formats.* What a file, a packet or a table looks like is written down apart from the code
  that reads it: layouts and encoders for MAVLink frames, RTP packets and IN_FORMATS blobs,
  the bytes of PNG files and pixels. The readers take exactly what these produce, and the
  contracts of the main operations are on bytes and fields.

## What does not hold of the code

* `publish_solid_flow_frame` puts a solid debug frame in place of a rendered one. When
  vblank waits are enabled and the CPU-frame `present` commits it nonblocking, the rendered
  frame's buffer is released before the flip: an early flip (`Compositor.FlipsToSolid` with a
  rendered frame current; `SolidFrameIsEarly` is a run). From a safe state, such as the first
  one, some buffer is released while it may be on screen if and only if there was an early
  flip (`Run`). After one, the released buffer is still shown and may be rendered into again,
  so that publishing drops it, or a present whose wait for the flip fails gives it back, while
  it is on screen: the contracts of `PublishRendered`, `PublishSolid` and `Present` count
  these releases in every state, and `LateReleaseByPublish` is a run.
* After a failed texture upload `ensure_atlas` has already stored its key, so the next call
  for the same view answers true although the texture is old (`FailedUploadIsForgotten`).
* `import_frame` forgets imported handles when a later plane has a negative file descriptor
  (`SecondPlaneMissing`); `ForgetsMeans` says exactly for which frames and answers, and
  `KeyedFramesAreNotForgotten` that callers never get there.
* The compositor's copy of the video cache evicts without regard to the framebuffer on
  screen. While the commits of new frames are refused, a frame at place p of n entries is lost
  exactly after more than 12 - n + p of them, so twelve for the frame just shown
  (`RefusedFramesPushOut`; `TwelveRefusedFrames` is a run of the code).
* `Client` keeps its receive buffer over a reconnect. `JoinedStreams` says exactly when the
  lines of two connections still come out unmixed.
* A replay whose first timestamp is outside 32 bits fails at the first valid packet; and a
  replay whose step is a multiple of 2^32 has fewer access units than it reports
  (`RtpFixture.Replay`, `ReplayReadBack`).
* `decode_png` reads past its input, exactly on files where, following the chunks by their
  declared lengths, all header chunks are good up to one whose tested bytes run into the end
  of the file (`RunsOut` in the contract of `DecodePng`). Such a header is shorter than nine
  bytes and starts in the last twenty bytes of the file (`LongHeadersAreInside`);
  `EmptyHeaderIsOutside` is a file of twenty bytes.

## Model

| member | source | states |
|---|---|---|
| `Bytes.FieldsAreBigEndian` | src/glide_flow/gpu_map_renderer.cpp:36-40 | the fixed-width fields of PNG files, fixtures and RTP packets are big-endian |
| `MavlinkCrc.AccumulateIsEightShifts` | src/common/mavlink_udp_bridge.cpp:142-147 | one byte-wise step is eight steps of the reflected 0x8408 shift register, for every byte and register |
| `MavlinkCrc.CrcIsBitwise` | src/common/mavlink_udp_bridge.cpp:827-831 | hence the checksum of every message is the bit-wise CRC |
| `MavlinkCrc.CrcIsWide` | examples/gps-mavlink-emulator.py:26-29 | the Python version in unbounded integers agrees with the C++ version on every message |
| `MavlinkCrc.CheckValue` | src/common/mavlink_udp_bridge.cpp:827-831 | the check value of CRC-16/MCRF4XX, 0x6f91 for the digits 1 to 9 |
| `MavlinkCrc.CrcConcat` | src/common/mavlink_udp_bridge.cpp:827-831 | the checksum of a message can be taken part by part |
| `MavlinkCrc.BurstIsRevealed` | src/common/mavlink_udp_bridge.cpp:827-831 | messages that differ only within two neighbouring bytes have different checksums |
| `MavlinkCrc.OneByteIsRevealed` | src/common/mavlink_udp_bridge.cpp:827-831 | changing exactly one byte changes the checksum |
| `MavlinkCrc.OddErrorsAreRevealed` | src/common/mavlink_udp_bridge.cpp:827-831 | messages of one length that differ in an odd number of bits have different checksums |
| `MavlinkCrc.TrailerLeavesZero` | src/common/mavlink_udp_bridge.cpp:832-833 | feeding a message's own trailer, low byte first, leaves the register at zero |
| `MavlinkCrc.TrailerIsUnique` | src/common/mavlink_udp_bridge.cpp:832-833 | and no other trailer does |
| `MavlinkFraming.Layout2IsFrame` | src/common/mavlink_udp_bridge.cpp:378-401 | a version 2 packet laid out by the guide, with any flags and with a signature exactly when the first flag asks for it, is one frame with its fields |
| `MavlinkFraming.Layout1IsFrame` | src/common/mavlink_udp_bridge.cpp:378-401 | so is a version 1 packet |
| `MavlinkFraming.FramesAreLaidOut2` | src/common/mavlink_udp_bridge.cpp:378-401 | every frame taken that does not begin with 0xFE is laid out as version 2 |
| `MavlinkFraming.FramesAreLaidOut1` | src/common/mavlink_udp_bridge.cpp:378-401 | every frame taken that begins with 0xFE is laid out as version 1 |
| `MavlinkFraming.ScanIsTheReading` | src/common/mavlink_udp_bridge.cpp:370-406 | any reading of a byte string as skipped bytes, whole frames and an unreadable rest is the one the parser finds |
| `MavlinkFraming.ReadingExists` | src/common/mavlink_udp_bridge.cpp:370-406 | every byte string has such a reading |
| `MavlinkFraming.StuckIsShort` | src/common/mavlink_udp_bridge.cpp:408-432 | what stays in the stream buffer is empty or begins a frame it does not complete, at most 279 bytes |
| `MavlinkFraming.ScanInTwoParts` | src/common/mavlink_udp_bridge.cpp:408-432 | parsing a, keeping the rest and parsing on with b is parsing a + b |
| `MavlinkFraming.ChunkingInvariance` | src/common/mavlink_udp_bridge.cpp:408-432 | for every split of every stream, parsing as it arrives delivers the frames of one datagram with all of it |
| `MavlinkFraming.EncodeIsFrame` | src/common/mavlink_udp_bridge.cpp:814-833 | a sent packet is one frame that carries its ids, payload and 24 bits of message id |
| `MavlinkFraming.EncodedBytes2` | src/common/mavlink_udp_bridge.cpp:814-833 | the version 2 packet byte by byte: start, length, two zero flags, sequence number, ids, message id and checksum low byte first |
| `MavlinkFraming.EncodedBytes1` | examples/gps-mavlink-emulator.py:41-53 | the version 1 packet byte by byte |
| `MavlinkFraming.UnfinishedIsStuck` | src/common/mavlink_udp_bridge.cpp:418-423 | a packet cut short stays in the buffer whole |
| `MavlinkFraming.PacketsArrive` | src/common/mavlink_udp_bridge.cpp:370-432 | version 1 and 2 packets with stray bytes between them arrive complete and in order under every chunking, from the datagram parser too |
| `MavlinkFraming.ChecksumGuardsPacket` | src/common/mavlink_udp_bridge.cpp:827-833 | a receiver that tests the checksum accepts a packet's trailer and no other, and rejects damage within two neighbouring bytes or in an odd number of bits |
| `MavlinkFraming.ParseDatagram` | src/common/mavlink_udp_bridge.cpp:370-406 | the loop over a datagram returns the frames of the unique reading |
| `MavlinkFraming.Bridge.ParseStream` | src/common/mavlink_udp_bridge.cpp:408-432 | the loop over the stream buffer returns its frames and erases all but the unread rest |
| `MavlinkFraming.Bridge.Poll` | src/common/mavlink_udp_bridge.cpp:598-640 | over a connection, the frames delivered are those of one datagram with all bytes received, whatever recv returns; a disconnect clears the buffer |
| `MavlinkFraming.Bridge.Checksum` | src/common/mavlink_udp_bridge.cpp:827-831 | the loop computes the CRC of all bytes after the start byte and the seed |
| `MavlinkFraming.Bridge.SendPacket` | src/common/mavlink_udp_bridge.cpp:807-857 | the bytes sent, with the sequence number in the fifth and then counted up mod 256; nothing when closed or over 255 bytes; true only when all was sent |
| `MavlinkFraming.SendAll` | src/common/mavlink_udp_bridge.cpp:818-823 | from the sequence bytes of two packets a receiver computes how many between them were lost, mod 256; refused payloads take no number |
| `MavlinkFraming.Bridge.Close` | src/common/mavlink_udp_bridge.cpp:859-873 | a closed bridge has an empty buffer, so connections do not mix |
| `MavlinkFraming.Emulator.ChecksumWide` | examples/gps-mavlink-emulator.py:49-51 | the Python loop computes the same CRC |
| `MavlinkFraming.Emulator.Send` | examples/gps-mavlink-emulator.py:17-55 | the bytes sent with the seed of the message, or struct.error or KeyError in that order of tests without taking a sequence number |
| `FlowBuffers.IdsAreInjective` | src/dev/kms_atomic_compositor.cpp:2132-2158 | two framebuffer ids of the cache never stand for one buffer |
| `FlowBuffers.KeyTellsBuffer` | src/dev/kms_atomic_compositor.cpp:2102-2130 | buffers with different first handles have different cache keys |
| `FlowBuffers.CacheGrows` | src/dev/kms_atomic_compositor.cpp:2153-2157 | a new entry keeps the framebuffer cache injective |
| `FlowBuffers.Compositor.FindOrAddFramebuffer` | src/dev/kms_atomic_compositor.cpp:2132-2207 | finds the buffer's own framebuffer or records a new one; the cache stays injective |
| `FlowBuffers.Compositor.LockFlowFramebuffer` | src/dev/kms_atomic_compositor.cpp:2209-2233 | locks the front buffer, and gives it back when no framebuffer can be made |
| `FlowBuffers.Compositor.HeldIsNotCurrent` | src/dev/kms_atomic_compositor.cpp:2396-2410 | the overwrite that would leak a buffer, same framebuffer with a buffer in hand, is unreachable |
| `FlowBuffers.Compositor.OthersAreOffScreen` | src/dev/kms_atomic_compositor.cpp:950-956 | in a safe state only the current buffer may be on screen, and it is locked and not pending |
| `FlowBuffers.Compositor.PendingOnScreen` | src/dev/kms_atomic_compositor.cpp:950-956 | in any state the pending buffer may be on screen exactly when the plane still shows its framebuffer |
| `FlowBuffers.Compositor.PublishRendered` | src/dev/kms_atomic_compositor.cpp:941-963 | the new frame replaces a pending one that is released, on screen exactly if it was scanned out before; a failure changes nothing pending and releases nothing scanned |
| `FlowBuffers.Compositor.PublishSolid` | src/dev/kms_atomic_compositor.cpp:978-1008 | the solid buffer becomes pending, made once; the pending frame is released, on screen exactly if it was scanned out before |
| `FlowBuffers.Compositor.Acquire` | src/dev/kms_atomic_compositor.cpp:2362-2383 | a freshly locked frame, else the pending frame, else the current one |
| `FlowBuffers.Compositor.ReleaseAcquired` | src/dev/kms_atomic_compositor.cpp:2385-2394 | a failed commit returns the acquired buffer, counted as unsafe exactly when it is scanned out |
| `FlowBuffers.Compositor.Adopt` | src/dev/kms_atomic_compositor.cpp:2396-2410 | the acquired frame becomes current and the previous buffer is released exactly once |
| `FlowBuffers.Compositor.WaitForPendingPageFlip` | src/dev/kms_atomic_compositor.cpp:2683-2727 | succeeds exactly when no flip is pending or the event arrives before an error or the deadline |
| `FlowBuffers.Compositor.Commit` | src/dev/kms_atomic_compositor.cpp:2448-2620 | writes the Flow plane exactly at the first commit or on change, never while a flip is pending |
| `FlowBuffers.Compositor.CommitHeld` | src/dev/kms_atomic_compositor.cpp:2448-2620 | with a buffer in hand, a commit makes its framebuffer the plane's target, or leaves what the wait for the flip before left |
| `FlowBuffers.Compositor.Show` | src/dev/kms_atomic_compositor.cpp:2448-2620 | commit, then adopt or give back: the plane's target is again the current framebuffer, and every release of a scanned buffer is counted |
| `FlowBuffers.Compositor.Present` | src/dev/kms_atomic_compositor.cpp:679-843 | the three present methods, in any state: when they succeed, which frame is then current, ownership kept; the Flow plane written exactly on change; the flip left for later exactly for a CPU frame without a new rendered frame; a scanned buffer is released by a success exactly on an early flip, by a failure exactly when the flip before did not come and the held buffer is on screen |
| `FlowBuffers.Compositor.SetVblankWaitEnabled` | src/dev/kms_atomic_compositor.cpp:845-849 | keeps the invariant |
| `FlowBuffers.Compositor.Cleanup` | src/dev/kms_atomic_compositor.cpp:2883-2913 | releases every locked buffer, none twice |
| `FlowBuffers.Run` | src/dev/kms_atomic_compositor.cpp:679-1008 | over every run with every failure: locked buffers are exactly pending and current, the plane follows current, and from a safe state something scanned is released if and only if some present was an early flip |
| `FlowBuffers.SolidFrameIsEarly` | src/dev/kms_atomic_compositor.cpp:793-802 | a run that releases a buffer still on screen |
| `FlowBuffers.LateReleaseByPublish` | src/dev/kms_atomic_compositor.cpp:999-1006 | continued, it releases the buffer on screen a second time, by publishing |
| `RecencyCache.Touches` | src/dev/kms_dmabuf_video_plane.cpp:902-935 | giving an entry the newest stamp moves its key to the end of the recency list |
| `RecencyCache.Appends` | src/dev/kms_dmabuf_video_plane.cpp:902-935 | a new entry with the newest stamp goes to the end of the list |
| `RecencyCache.Drops` | src/dev/kms_dmabuf_video_plane.cpp:937-960 | erasing the entry with the smallest stamp among those that may go drops the first such key of the list |
| `RecencyCache.OldestIsFirst` | src/dev/dmabuf_gles_video_renderer.cpp:399-409 | the smallest stamp is the head of the list |
| `RecencyCache.OrderedIs` | src/dev/kms_dmabuf_video_plane.cpp:937-960 | the list is the only order of the entries with increasing stamps |
| `FramebufferCache.ForgetsMeans` | src/dev/kms_dmabuf_video_plane.cpp:832-851 | import_frame leaks exactly when a plane after the first has a negative descriptor and all before it got handles |
| `FramebufferCache.SecondPlaneMissing` | src/dev/kms_dmabuf_video_plane.cpp:832-836 | a frame on which it leaks |
| `FramebufferCache.KeyedFramesAreNotForgotten` | src/dev/kms_dmabuf_video_plane.cpp:870-900 | a frame that has a key never reaches import_frame's leaking return |
| `FramebufferCache.ImportCache.DestroyImported` | src/dev/kms_dmabuf_video_plane.cpp:981-1000 | removes the framebuffer and closes each distinct handle once |
| `FramebufferCache.ImportCache.ImportFrame` | src/dev/kms_dmabuf_video_plane.cpp:825-868 | when it succeeds, the handle of each plane, one for each descriptor, and the framebuffer; a failure gives everything back exactly when the leaking return is not taken |
| `FramebufferCache.KeyTellsPicture` | src/dev/kms_dmabuf_video_plane.cpp:870-900 | two frames have one key exactly when size, format, planes, strides, offsets, modifiers and the files of the planes in use agree |
| `FramebufferCache.ImportCache.MakeFrameKey` | src/dev/kms_dmabuf_video_plane.cpp:870-900 | that key, refused exactly for a bad plane count, a negative descriptor or a failing fstat |
| `FramebufferCache.ImportCache.EvictIfNeeded` | src/dev/kms_dmabuf_video_plane.cpp:937-960 | at twelve entries drops what the recency list would: the first entry not on screen in the video plane, the first of all in the compositor, where a framebuffer on screen is then lost |
| `FramebufferCache.ImportCache.FindOrImport` | src/dev/kms_dmabuf_video_plane.cpp:902-935 | the framebuffer returned was imported from a frame of the same layout in the same files, an earlier import if and only if there is one; otherwise a new one; refines a lookup in the recency list, with open handles and framebuffers those recorded in every case |
| `FramebufferCache.ImportCache.DestroyCache` | src/dev/kms_dmabuf_video_plane.cpp:1002-1008 | closes and removes everything, once |
| `FramebufferCache.ImportCache.Present` | src/dev/kms_dmabuf_video_plane.cpp:343-390 | one step of the recency list with its entry on screen; that entry stays cached, also after refused SetPlane calls, and is removed on screen only when the plane could not be turned off before a format change |
| `FramebufferCache.ImportCache.PresentAtomic` | src/dev/kms_atomic_compositor.cpp:679-731 | the same step in the compositor, where a commit puts the frame on screen and eviction does not spare it |
| `FramebufferCache.ShowAll` | src/dev/kms_dmabuf_video_plane.cpp:343-390 | over every run of either code the cache is the recency list its calls make, at most twelve entries, handles and framebuffers conserved, none closed twice |
| `FramebufferCache.RefusedFramesPushOut` | src/dev/kms_atomic_compositor.cpp:2345-2360 | while commits are refused, exactly after how many new frames the compositor's frame on screen is lost |
| `FramebufferCache.TwelveRefusedFrames` | src/dev/kms_atomic_compositor.cpp:2345-2360 | a run that loses it |
| `FramebufferCache.ImageKeyTellsImage` | src/dev/dmabuf_gles_video_renderer.cpp:267-293 | two frames have one image key exactly when the luma plane's file, size, format, colours and the layout of the planes in use agree |
| `FramebufferCache.ImageCache.FindImage` | src/dev/dmabuf_gles_video_renderer.cpp:267-329 | the image returned was imported from such a frame, an earlier one if and only if there is one |
| `FramebufferCache.ImageCache.FindOrImport` | src/dev/dmabuf_gles_video_renderer.cpp:295-329 | refines the recency list of sixteen images, and the image returned survives the eviction after its insertion |
| `FramebufferCache.ImageCache.EvictIfNeeded` | src/dev/dmabuf_gles_video_renderer.cpp:399-409 | drops the head of the list only when over sixteen, never the newest |
| `FramebufferCache.FindAll` | src/dev/dmabuf_gles_video_renderer.cpp:295-329 | over every run of lookups the images are the recency list of sixteen they make |
| `Raster.NearIsRounded` | scripts/generate_offline_osm_tiles.py:105-124 | within half a pixel, on the proper side in a tie, means: the minor coordinate is the exact one rounded |
| `Raster.TurnStaysNear` | scripts/generate_offline_osm_tiles.py:119-124 | the two tests on twice the error keep the walk within half a pixel |
| `Raster.LineReachesBothEnds` | scripts/generate_offline_osm_tiles.py:114-117 | the rounded line starts and ends at the given points |
| `Raster.LineStaysInBox` | scripts/generate_offline_osm_tiles.py:105-124 | no point leaves the bounding box of the ends |
| `Raster.LineIsConnected` | scripts/generate_offline_osm_tiles.py:119-124 | each point is one of the eight neighbours of the one before |
| `Raster.LineIsClose` | scripts/generate_offline_osm_tiles.py:105-124 | twice the cross product with the exact line is at most the longer side |
| `Raster.PutPixel` | scripts/generate_offline_osm_tiles.py:106-107 | writing three bytes changes one pixel and no other |
| `Raster.PutDisc` | scripts/generate_offline_osm_tiles.py:97-107 | on the bytes: pixel i takes the color if and only if its distance from the center is at most the radius |
| `Raster.StrokedBytes` | scripts/generate_offline_osm_tiles.py:110-127 | on the bytes: after a line exactly the pixels within the radius of a visited point have the color |
| `Raster.Line` | scripts/generate_offline_osm_tiles.py:110-127 | the loop ends after max(\|dx\|, \|dy\|) + 1 points, each the rounded one, and paints exactly the pixels within the stroke of one of them |
| `Png.Paeth` | src/glide_flow/gpu_map_renderer.cpp:42-49 | the neighbour nearest to a + b - c, ties in the order a, b, c |
| `Png.StandardFilters` | src/glide_flow/gpu_map_renderer.cpp:85-97 | the five filter types of section 9.2 of ISO/IEC 15948, on the bytes |
| `Png.EncodesOne` | src/glide_flow/gpu_map_renderer.cpp:81-98 | a filtered stream encodes one picture only |
| `Png.UnfilterRow` | src/glide_flow/gpu_map_renderer.cpp:81-98 | the in-place loop over a row decodes it from the rows above, or stops at a filter over 4 |
| `Png.Unfilter` | src/glide_flow/gpu_map_renderer.cpp:80-98 | succeeds exactly when every filter type is valid, and then yields a picture the stream encodes |
| `Png.FilterRowsEncodes` | src/glide_flow/gpu_map_renderer.cpp:81-98 | filtering with any types per row gives a stream that encodes the picture |
| `Png.FilterRoundTrip` | src/glide_flow/gpu_map_renderer.cpp:81-98 | every picture of 3 or 4 bytes a pixel comes back from every choice of filters |
| `Png.ParsingGivesMeaning` | src/glide_flow/gpu_map_renderer.cpp:57-75 | the chunk loop applies the chunks in turn up to IEND, whatever follows it |
| `Png.SplitDataJoins` | src/glide_flow/gpu_map_renderer.cpp:69-71 | cutting the compressed data into any IDAT chunks does not matter |
| `Png.ScanLinesEncode` | scripts/generate_offline_osm_tiles.py:50 | rows with filter 0 in front are a stream that encodes the picture |
| `Png.WritePng` | scripts/generate_offline_osm_tiles.py:44-56 | the whole file byte by byte, each chunk with the CRC of its type and data |
| `Png.HeaderTaken` | src/glide_flow/gpu_map_renderer.cpp:64-68 | a header is taken exactly for 8-bit RGB or RGBA without interlacing |
| `Png.ReadChunks` | src/glide_flow/gpu_map_renderer.cpp:57-75 | the loop computes what the chunk stream means |
| `Png.OutsideIsRunningOut` | src/glide_flow/gpu_map_renderer.cpp:57-68 | the chunk loop reads past the end exactly on the files that RunsOut describes |
| `Png.LongHeadersAreInside` | src/glide_flow/gpu_map_renderer.cpp:63-68 | never with header chunks of nine bytes or more, or that start before the last twenty bytes |
| `Png.EmptyHeaderIsOutside` | src/glide_flow/gpu_map_renderer.cpp:63-68 | a file of twenty bytes on which it does |
| `Png.DecodePng` | src/glide_flow/gpu_map_renderer.cpp:51-107 | for every input: rejected, the pixels' bytes of the picture its data encodes, or, exactly when RunsOut, a read past the end |
| `Png.TileRoundTrip` | src/glide_flow/gpu_map_renderer.cpp:51-107 | a tile of either color type, with any filters and any IDAT split: pixel i has alpha, red, green and blue of its bytes in the picture, from the top byte down |
| `TileAtlas.CutTile` | scripts/generate_offline_osm_tiles.py:301-308 | each byte of the tile is the byte of the mosaic at its place |
| `TileAtlas.CopyTile` | src/glide_flow/gpu_map_renderer.cpp:200-203 | copying row by row replaces exactly the pixels of one tile |
| `TileAtlas.Assemble` | src/glide_flow/gpu_map_renderer.cpp:193-204 | atlas pixel i is that of the tile under it, or 0xff090e0f where none loads |
| `TileAtlas.StoreAndLoad` | scripts/generate_offline_osm_tiles.py:48-56 | write_png then decode_png: pixel i is 0xff and then its three bytes, red first |
| `TileAtlas.AssembledCell` | src/glide_flow/gpu_map_renderer.cpp:193-204 | reading the atlas at a column and row gives the pixel of the tile loaded there |
| `TileAtlas.MosaicRoundTrip` | scripts/generate_offline_osm_tiles.py:301-310 | cut, write, decode, assemble: atlas pixel i is 0xff and then bytes 3i, 3i + 1 and 3i + 2 of the mosaic |
| `MapRenderer.BestIsUnique` | src/glide_flow/gpu_map_renderer.cpp:145-152 | position and package list determine the package |
| `MapRenderer.GpuMapRenderer.SelectPackage` | src/glide_flow/gpu_map_renderer.cpp:145-158 | chooses the deepest, then smallest, then first package, and forgets the atlas key exactly on a change |
| `MapRenderer.GpuMapRenderer.ProbeZoom` | src/glide_flow/gpu_map_renderer.cpp:176-181 | the highest level from the clamped one down with a tile at the position: none above it has one, and it has one unless it is 13 |
| `MapRenderer.RangeCoversView` | src/glide_flow/gpu_map_renderer.cpp:182-190 | every point that draw puts inside the view, the position being panned off its middle, lies on the range with one tile to spare on each side, and the range is less than four tiles larger than the view |
| `MapRenderer.AtlasShowsWorld` | src/glide_flow/gpu_map_renderer.cpp:193-204 | the atlas shows each pixel of the map in its range, from the tile it lies on |
| `MapRenderer.GpuMapRenderer.VisibleRange` | src/glide_flow/gpu_map_renderer.cpp:176-191 | that range, never empty |
| `MapRenderer.GpuMapRenderer.Rebuild` | src/glide_flow/gpu_map_renderer.cpp:192-209 | a fresh atlas for the view, counted when uploaded |
| `MapRenderer.GpuMapRenderer.EnsureAtlas` | src/glide_flow/gpu_map_renderer.cpp:173-210 | kept or rebuilt, the atlas is what a full rebuild for the state and package gives; the texture shows it unless the last upload failed |
| `MapRenderer.FailedUploadIsForgotten` | src/glide_flow/gpu_map_renderer.cpp:191-206 | a run in which a call succeeds although the texture was never uploaded |
| `LineIpc.LinesInTwoParts` | src/common/ipc.cpp:46-58 | reading on from the left-over is reading the whole stream |
| `LineIpc.ReadingIsUnique` | src/common/ipc.cpp:46-58 | any way to take a stream apart into pieces closed by line feeds and an unbroken end gives these lines and this rest |
| `LineIpc.ReadingExists` | src/common/ipc.cpp:46-58 | every stream can be taken apart so |
| `LineIpc.SentLinesArrive` | src/common/ipc.cpp:46-58 | lines sent are the lines read if and only if none holds a line feed or ends in a carriage return |
| `LineIpc.JoinedStreams` | src/common/ipc.cpp:206-216 | exactly when two connections through one buffer keep their lines apart |
| `LineIpc.DrainLines` | src/common/ipc.cpp:46-58 | takes the complete lines out and leaves the rest |
| `LineIpc.Client.SendLine` | src/common/ipc.cpp:153-169 | true exactly when connected and all bytes were taken; while always true, the lines arrive exactly if clean |
| `LineIpc.Client.PollLines` | src/common/ipc.cpp:171-204 | all lines handed out are the lines of all bytes received, over reconnects too |
| `LineIpc.Server.AcceptAll` | src/common/ipc.cpp:288-299 | new clients get new numbers and empty buffers |
| `LineIpc.Server.Serve` | src/common/ipc.cpp:303-317 | one client's turn changes only that client's lines |
| `LineIpc.Server.DropDead` | src/common/ipc.cpp:320-330 | exactly the ended clients are dropped, in order, others untouched |
| `LineIpc.Server.Poll` | src/common/ipc.cpp:281-330 | every open or newly accepted client gets the lines of its bytes, also before its end of stream, and then only live ones stay |
| `LineIpc.Server.SendLine` | src/common/ipc.cpp:361-382 | reaches exactly a known client; while it is always true for a client, the client reads the lines sent exactly if all are clean |
| `LineIpc.RunServer` | src/common/ipc.cpp:223-330 | over every run of listening, accepting, receiving, polling, ending and closing, the events of a client are the lines of the bytes it sent while connected |
| `RtpFixture.ReadingIsWriting` | tools/artosyn_rtp_fixture.py:73-88 | read_fixture yields records exactly for the file the writer makes of them |
| `RtpFixture.ParseUndoesBody` | tools/artosyn_rtp_fixture.py:157-161 | written records are read back, whatever incomplete piece follows |
| `RtpFixture.BodyUndoesParse` | tools/artosyn_rtp_fixture.py:78-88 | what was read and what is left over are together the whole input |
| `RtpFixture.CutFile` | tools/artosyn_rtp_fixture.py:73-88 | every prefix of a file: its first records when cut between records, else the truncation error that fits, or no fixture |
| `RtpFixture.RecordBytes` | tools/artosyn_rtp_fixture.py:157-161 | a record is its time in eight bytes, its length in four, both big-endian, and its payload |
| `RtpFixture.ReadFixture` | tools/artosyn_rtp_fixture.py:73-88 | the loop computes that reading |
| `RtpFixture.WriteFixture` | tools/artosyn_rtp_fixture.py:144-161 | times relative to the first packet; stops at the first record that cannot be packed; what is written reads back |
| `RtpFixture.PackedDetails` | tools/artosyn_rtp_fixture.py:91-108 | of a packet built by section 5.1 of RFC 3550, with any CSRCs and extension, rtp_details gives the sequence number, timestamp, marker and payload |
| `RtpFixture.DetailsArePacked` | tools/artosyn_rtp_fixture.py:91-108 | every packet it accepts is built so |
| `RtpFixture.AcceptsExactlyRtp` | tools/artosyn_rtp_fixture.py:91-108 | so it accepts exactly the RTP packets of version 2 |
| `RtpFixture.RewriteDetails` | tools/artosyn_rtp_fixture.py:91-108 | rewriting sequence number and timestamp changes nothing else that rtp_details sees |
| `RtpFixture.UnitsAreChanges` | tools/artosyn_rtp_fixture.py:128-131 | access units are as many as the packets whose timestamp is not that of the packet before |
| `RtpFixture.Summarize` | tools/artosyn_rtp_fixture.py:125-139 | counts the valid packets and the runs of equal timestamps |
| `RtpFixture.SortedKeeps` | tools/artosyn_rtp_fixture.py:192 | what the median is taken of is in order and the same numbers |
| `RtpFixture.EvenStepIsInferred` | tools/artosyn_rtp_fixture.py:181-192 | a recording whose access units follow by one step has that step inferred |
| `RtpFixture.InferStep` | tools/artosyn_rtp_fixture.py:181-192 | the median of the differences mod 2^32 between access units, 1500 when there are none |
| `RtpFixture.PlayCycle` | tools/artosyn_rtp_fixture.py:207-232 | one cycle: consecutive sequence numbers, one step per access unit, one more at the end |
| `RtpFixture.Replay` | tools/artosyn_rtp_fixture.py:195-232 | with the given or the inferred step, over all cycles packet n has the n-th sequence number mod 2^16 and the timestamp of its access unit mod 2^32; units are cycles times those of one; exactly when it fails |
| `RtpFixture.ReplayReadBack` | tools/artosyn_rtp_fixture.py:195-232 | read back, packet n has sequence + n mod 2^16 and timestamp + k step mod 2^32 for its access unit k, marker and payload unchanged; summarize finds the reported access units exactly when the step moves the timestamp or there is at most one |
| `RtpFixture.NumbersClimb` | tools/artosyn_rtp_fixture.py:212-217 | access units are numbered over all cycles without a gap |
| `RtpFixture.OwnNumbersRestore` | tools/artosyn_rtp_fixture.py:195-232 | replayed once with its own numbers, an evenly stamped recording comes out unchanged |
| `Letterbox.DestinationFits` | src/dev/kms_atomic_compositor.cpp:2412-2441 | for all 32-bit sizes nothing wraps, the rectangle is inside the display, fills one direction, keeps the shape and is centred to a pixel |
| `Letterbox.LetterboxIsUnique` | src/dev/kms_dmabuf_video_plane.cpp:247-280 | it is the only rectangle with these properties, so both copies compute it |
| `Letterbox.OnlyShapeMatters` | src/dev/kms_dmabuf_video_plane.cpp:247-280 | enlarging a frame in both directions does not move its rectangle |
| `InFormats.BlobHasRange` | src/dev/kms_atomic_compositor.cpp:423-433 | exactly offset + count * size <= length, without computing a sum or product |
| `InFormats.TableIsAnswered` | src/dev/kms_atomic_compositor.cpp:404-421 | a blob that holds a table, written by a separate little-endian encoder at any places, is well formed and supports a pair exactly if an entry of the modifier lists an index of the format |
| `InFormats.WellFormedHolds` | src/dev/kms_atomic_compositor.cpp:404-421 | every well-formed blob holds a table of that encoder |
| `InFormats.SupportedIsTable` | src/dev/kms_atomic_compositor.cpp:445-491 | so the queries' answer is said without reading a field: the blob holds a table with the pair |
| `InFormats.CheckedHeader` | src/dev/kms_atomic_compositor.cpp:449-459 | passes exactly headers of version 1 without flags whose tables lie inside the blob |
| `InFormats.TableReadsSucceed` | src/dev/kms_atomic_compositor.cpp:461-478 | after these checks no read in the loops fails and no offset wraps |
| `InFormats.AnyRecordLists` | src/dev/kms_atomic_compositor.cpp:472-488 | true if and only if a record lists the entry's bit for the modifier |
| `InFormats.SupportsModifier` | src/dev/kms_atomic_compositor.cpp:445-491 | true if and only if the blob supports the pair |
| `InFormats.PlaneSupportsModifier` | src/dev/kms_dmabuf_video_plane.cpp:153-196 | the copy that goes on where the other gives up computes the same |

## Left out

- Sockets, ioctls, GBM, EGL and fstat: their answers are parameters; the model says which answers are possible (a front buffer is not locked already, a new framebuffer id or handle is not in use).
- zlib: deflate and inflate are an inverse pair, and compressed tiles fit a chunk; the CRC of a PNG chunk is any 32-bit function, since decode_png does not test it.
- FlowBuffers.Compositor.Commit: does not model writeback capture, whose failure after the commit makes the method answer false with the frame on screen, nor the UI plane, which is written only at the first commit.
- FlowBuffers.Compositor.Present: does not model the choice of planes, the CPU copy of pixels, the readback of the primary plane or the mutex; each method is one step.
- FlowBuffers.Compositor.Cleanup: ends with the Flow buffers; whether they are on screen when the display goes back to its former state is not stated.
- FramebufferCache.ImportCache.Present: does not model the CPU-frame path; serial counters are unbounded.
- FramebufferCache.ImportCache.PresentAtomic: does not model present_overlay, which commits the video framebuffer shown last once more.
- FramebufferCache.ImageCache.FindOrImport: importing is one answer; the key holds only plane 0's file, and nothing is said about chroma in another buffer.
- MapRenderer.RangeCoversView: the Mercator projection and the power of two are arbitrary real functions, so floating-point rounding is not modelled; zoom levels and tile numbers are unbounded integers.
- MapRenderer.GpuMapRenderer.EnsureAtlas: tiles do not change while the renderer runs; the .glidemap reader is a parameter.
- MavlinkFraming.Bridge.Poll: the TCP half; each UDP datagram is parsed alone by the datagram parser, and discovery of the UDP peer is not modelled.
- MavlinkFraming.Bridge.SendPacket: an open bridge has a peer.
- MAVLink message fields, heartbeats and the snapshot they fill: only easy members. The bridge does not test received checksums; what a test would reveal is stated of the checksum itself.
- LineIpc.Server.Poll: client numbers are unbounded; the Windows variant is the same loop.
- RtpFixture.Replay: pacing and the PCAP reader are left out.
- InFormats.SupportsModifier: multi-byte fields are little-endian, as memcpy reads them on the supported hosts.
- Overlay widgets, fonts, themes, trails, road styles and the download of map data: floating-point layout and user interface.
