# RVGPU command protocol: a verified model

RVGPU splits a virtio GPU over machines: a proxy takes commands from the guest's virtqueues and
forwards them to one or more renderers, which execute them and show the result. This project models the protocol
between the two and the state machines around it in Dafny, and proves what they are for. `dafny verify
dfyconfig.toml` checks all of it.

- `Bytes`, `Iov`: little-endian words, flattening and overlaying, copies between flat and scattered memory.
- `Vqueue`, `Requests`: descriptor chains, wrapping ring indices, reference-counted requests from fetch to used ring.
- `AsyncCommands`, `Pigeonhole`: the list of parked commands, and counting different numbers.
- `Commands`, `Messages`, `TransferSize`: sanity checks, parsing, the walk over SUBMIT_3D buffers, the commands as the
  driver lays them out, transfer lengths in 32-bit arithmetic.
- `ProxyResources`, `PatchCodec`, `GpuDevice`: the proxy's resource table, the patch encoder, serving a request.
- `Transport`, `Renderer`, `CommandStream`: fan-out and buffered reading, the renderer's loop, and the theorem that both
  ends stay in step although nothing on the wire says whether patches follow.
- `Session`: requests served, their bytes delivered in reads of any length, and dispatched.
- `ReverseTransfer`: what a renderer reads back, and its way into fragmented guest memory.
- `Fences`: parked requests, the resource thread, and any number of renderers as a state machine over their steps.
- `SwapSync`: the exchange of buffers between a renderer's drawing and the compositor.
- `Touch`, `SlotTable`: the incremental touch encoder against the Linux multi-touch protocol, type B, and the slots of the
  emulated touchscreen.
- `Layout`: the surface list that layout requests edit.

Code that updates state in place is a class or a method with loops, proved against a function on values; the lemmas
are about that function. The commands follow section 5.7 and the queues section 2.7 of VIRTIO 1.2.

Where the code does not meet a property, a lemma gives the exact condition under which it does, and another an input
for which it does not:

- A SET_SCANOUT rectangle outside its resource ends every renderer (`CommandStream.CommandInSync`,
  `CommandStream.ScanoutExits`). The proxy also forwards an attach before it refuses it, and checks no transfer's box.
- A control request of 2^32 bytes or more is checked, and announced, with its size cut to 32 bits, and forwarded whole
  (`CommandStream.CommandInSync`, `CommandStream.OversizeBreaks`, `CommandStream.OversizeExits`).
- A read back at an offset behind the renderer's buffer ends the renderer, or sends memory that is not the resource's
  (`CommandStream.CommandInSync`, `ReverseTransfer.UploadsIff`, `CommandStream.ReadBackExits`).
- The loops over a SUBMIT_3D buffer read ids behind its end when a transfer command is cut off (`Commands.IdsDisagree`,
  `CommandStream.SubmitBreaks`, `Commands.CutOffTransfer`).
- Transfer lengths wrap at 2^32 for strides the sanity check lets through (`TransferSize.Tight2d`,
  `TransferSize.Tight3d`, `TransferSize.StrideWraps`, `TransferSize.BufferCovers`, `TransferSize.CompressedCovers`). Of a
  YUV picture with an odd height the last chroma row is not sent (`TransferSize.YuvCovers`).
- TRANSFER_TO_HOST_3D does not pass `layer_stride` on (`TransferSize.LayerStrideDropped`,
  `TransferSize.LayerStrideLost`).
- `resource_transfer` returns without reading the payload when the resource is gone
  (`ReverseTransfer.ResourceThread.ResourceTransfer`, `ReverseTransfer.PayloadLeft`), its cursor cannot go back for
  overlapping lines (`ReverseTransfer.ScatteredIff`, `ReverseTransfer.OverlapBacktracks`), and the window length it
  relies on wraps (`ReverseTransfer.PayloadEnough`, `ReverseTransfer.WindowWraps`).
- TRANSFER_FROM_HOST_3D goes to renderer 0 only, so its fence waits for others that never see it
  (`Fences.StuckAtRest`, `Fences.StuckRun`).
- A descriptor chain that loops over memory that cannot be mapped is walked forever (`Vqueue.StopsUnlessTrapped`,
  `Vqueue.SelfLoopHangs`).
- A contact added under id -1 is lost to the encoder (`Touch.AddInv`, `Touch.EveryRunAgreesIff`, `Touch.NoneBreaks`).
- A coordinate of -1 that a contact is moved to first is not sent (`Touch.MoveArrives`, `Touch.MoveLost`).
- The comment at `get_slot` asks what to do when all slots are occupied: that can happen
  (`SlotTable.AssertionHoldsIff`, `SlotTable.FailsWhenMany`).
- Layout ids wider than 32 bits, or given as real numbers, are not replaced (`Layout.ReplacedIff`, `Layout.WideTwice`,
  `Layout.NamedOccurs`, `Layout.RealTwice`).

## Model

| member | source | states |
|---|---|---|
| CommandStream.EndToEnd | src/rvgpu-renderer/virgl/rvgpu-virgl.c:566-731 | For every run of well-behaved requests, every renderer, every guest memory and whatever its static command union still holds: the renderer dispatches exactly the commands forwarded to it, in order, reads the stream to its end without an error exit, and its resource table mirrors the proxy's. |
| Session.Run | src/rvgpu-proxy/gpu/rvgpu-gpu-device.c:1591-1861 | The same of the code that runs: for every list of requests that is well-behaved, from empty tables, the proxy serves it, one renderer reads what it was sent in chunks of any length through a buffer of any size, dispatches, in order, every sane command if it is renderer 0 and every one but the read backs if it is not, and comes to the end of the stream with its table mirroring the proxy's. |
| CommandStream.CommandInSync | src/rvgpu-renderer/virgl/rvgpu-virgl.c:566-731 | One command keeps the two ends in step, whatever their command unions held before, exactly if it is proper: then, and only then, the renderer takes it and leaves exactly what follows, with the tables mirrored. Proper is a condition on the proxy's resource table and the request: fewer than 2^32 bytes, backing and memory limit for an attach, every pixel of the box in the resource for a transfer, the same and, unless nothing is read, the offset for a read back, every pixel of the rectangle for a SET_SCANOUT of the enabled scanout, and ids inside the buffer for a SUBMIT_3D as long as any resource is backed. |
| CommandStream.BoxInsidePixels | src/rvgpu-sanity/rvgpu-sanity.c:138-157 | The renderer's check of a box or rectangle that is not empty, as none is that passed the sanity check, holds exactly if each of its pixels is one of the resource. |
| CommandStream.WholeProper | src/rvgpu-renderer/virgl/rvgpu-virgl.c:627-655 | A transfer of the whole resource is always gone on from; so is a read back of it unless its offset is behind the buffer. |
| CommandStream.CommandsToIs | src/rvgpu-proxy/gpu/rvgpu-gpu-device.c:1644-1657 | Renderer 0 is sent every sane command and the others every one that is not a read back, whatever the resources. |
| CommandStream.StreamEnds | src/rvgpu-renderer/virgl/rvgpu-virgl.c:566-594 | A stream that stops behind a header is at its end, and one that stops inside a command, or has one too long or not sane, ends the renderer. |
| CommandStream.ProperKeeps | src/rvgpu-renderer/virgl/rvgpu-virgl.c:598-731 | A proper request is taken as sent, with any contents of the two unions. |
| CommandStream.ImproperBreaks | src/rvgpu-renderer/virgl/rvgpu-virgl.c:598-731 | For an improper one there are contents of the unions with which it is not. |
| CommandStream.OversizeBreaks | src/rvgpu-proxy/gpu/rvgpu-gpu-device.c:1625-1657 | No request of 2^32 bytes or more is ever taken as sent. |
| CommandStream.OversizeExits | src/rvgpu-proxy/gpu/rvgpu-gpu-device.c:1625-1657 | GET_DISPLAY_INFO in 2^32 + 24 bytes passes as one of 24; whatever the tables and whatever follows, every renderer exits. |
| CommandStream.ReadBackExits | src/rvgpu-renderer/virgl/rvgpu-virgl.c:367-375 | A read back of one pixel at offset 2^30 of a 64 by 64 pixel resource passes both checks and lies inside its box, and is not gone on from. |
| CommandStream.SubmitKeeps | src/rvgpu-renderer/virgl/rvgpu-virgl.c:476-510 | A SUBMIT_3D keeps the framing when the resource ids of its transfers lie inside the buffer, whatever the rest of their arguments. |
| CommandStream.SubmitBreaks | src/rvgpu-renderer/virgl/rvgpu-virgl.c:476-510 | When one does not, the proxy can send patches that the renderer leaves in the stream. |
| CommandStream.ScanoutExits | src/rvgpu-renderer/virgl/rvgpu-virgl.c:406-409 | A create of 64 by 64 pixels and a SET_SCANOUT of 128 by 64 pass both sanity checks, and every renderer exits. |
| CommandStream.ZeroNeverCreated | src/rvgpu-sanity/rvgpu-sanity.c:158-357 | Serving a request never puts a resource under id 0. |
| CommandStream.XferSync | src/rvgpu-renderer/virgl/rvgpu-virgl.c:268-313 | The patches of one transfer, also none at all, are consumed to the last byte, whatever follows; the inference from both resource tables agrees. |
| CommandStream.XfersSync | src/rvgpu-renderer/virgl/rvgpu-virgl.c:476-510 | So are the groups of patches of a whole SUBMIT_3D, one for each transfer command in it. |
| CommandStream.TransferCopies | src/librvgpu/res/rvgpu-res.c:155-183 | After a transfer the renderer's flat buffer equals the concatenated guest backing on the range asked for, and is as before elsewhere. |
| CommandStream.BoxCopied | src/librvgpu/res/rvgpu-res.c:344-414 | In terms of the box: after a transfer every byte of every row and slice asked for, or of the blocks or planes of the format, is the guest's, for every target, as long as nothing is cut and the backing reaches so far. |
| CommandStream.TransferAnswered | src/rvgpu-proxy/gpu/rvgpu-gpu-device.c:1272-1289 | A transfer is answered with success exactly if its resource has a backing, and exactly then something is sent for it; else the answer says what is missing. |
| CommandStream.AnsweredWell | src/rvgpu-proxy/gpu/rvgpu-gpu-device.c:1631-1770 | A request is answered with the verdict of the check if that refuses it; else with success exactly if its resource is there, or for a create is not, and has or has not a backing, as the command needs, and an attach keeps the memory limit. |
| CommandStream.FragmentsAt | src/librvgpu/res/rvgpu-res.c:155-183 | The byte at a place of a backing is the guest's byte at that place of the piece it falls into. |
| CommandStream.AttachedAt | src/rvgpu-proxy/gpu/rvgpu-gpu-device.c:1291-1335 | The pieces of a backing are the entries of the attach, in order. |
| CommandStream.SubmitAnswered | src/rvgpu-proxy/gpu/rvgpu-gpu-device.c:1524-1576 | SUBMIT_3D is answered as the last of its transfers. |
| CommandStream.TransferCutOff | src/rvgpu-renderer/virgl/rvgpu-virgl.c:268-291 | When the stream ends inside a patch, the bytes that have come are in the buffer, and the box is not checked. |
| CommandStream.PatchOutside | src/rvgpu-renderer/virgl/rvgpu-virgl.c:283-284 | A patch that reaches behind the buffer ends the renderer. |
| CommandStream.AttachZeroed | src/rvgpu-renderer/virgl/rvgpu-virgl.c:232-266 | An attach that goes through gives the resource as many zero bytes as its entries are long together, and touches no other. |
| CommandStream.AttachSync | src/rvgpu-renderer/virgl/rvgpu-virgl.c:232-266 | After an attach the tables mirror each other exactly if the resource exists without backing, something is attached, and the memory limit allows it; else the renderer exits or has a buffer the proxy refused. |
| CommandStream.HeaderParsed | src/rvgpu-renderer/virgl/rvgpu-virgl.c:566-594 | Of a request with its header the renderer takes as many bytes for the command as the proxy has checked, they pass its laxer check, and the rest stays in the stream. |
| CommandStream.ServedAccounted | src/rvgpu-proxy/gpu/rvgpu-gpu-device.c:1659-1770 | Serving any request keeps the memory accounting. |
| CommandStream.NotForwarded | src/rvgpu-proxy/gpu/rvgpu-gpu-device.c:1639-1657 | A request that a renderer is not sent changes nothing it would have to know. |
| CommandStream.StartMirrored | src/librvgpu/res/rvgpu-res.c:416-456 | The empty tables of both ends mirror each other. |
| PatchCodec.GatherTiles | src/librvgpu/res/rvgpu-res.c:136-183 | For every fragmentation, skip, length and IOV_MAX batching the patches cover the wanted slice once, in order, with the guest's bytes; no patch is empty. |
| PatchCodec.GatherEncodable | src/librvgpu/res/rvgpu-res.c:115-183 | From the start of a transfer they cover [skip, min(skip + length, total)) and fit their 32-bit fields. |
| PatchCodec.GatherCount | src/librvgpu/res/rvgpu-res.c:115-153 | There are as few patches as 1023 fragments to a patch allow. |
| PatchCodec.PatchRoundTrip | src/librvgpu/res/rvgpu-res.c:155-183 | Loading the encoded patches makes the flat buffer equal the backing on that slice, unchanged elsewhere, and leaves exactly what follows the terminator. |
| PatchCodec.LoadAll | src/rvgpu-renderer/virgl/rvgpu-virgl.c:268-291 | The reader stops at the terminator and nowhere before, having applied every patch. |
| PatchCodec.ApplyTiles | src/rvgpu-renderer/virgl/rvgpu-virgl.c:268-291 | Applying patches that tile a slice writes that slice and nothing else. |
| PatchCodec.TransferLoads | src/rvgpu-renderer/virgl/rvgpu-virgl.c:293-313 | A transfer sent by the proxy is loaded without an error exit. |
| PatchCodec.PatchWriter.WritePatch | src/librvgpu/res/rvgpu-res.c:115-128 | Header and chunks go out as the encoding of the pending patch, or nothing if there is none. |
| PatchCodec.PatchWriter.AddPatch | src/librvgpu/res/rvgpu-res.c:136-153 | A full builder is written out before the chunk is added; the builder then is the specified one. |
| PatchCodec.PatchWriter.TakeFragment | src/librvgpu/res/rvgpu-res.c:163-179 | One turn of the loop takes the cursor one fragment further, as specified. |
| PatchCodec.PatchWriter.SendData | src/librvgpu/res/rvgpu-res.c:155-183 | The bytes sent are the encoding of exactly the specified patches. |
| Transport.CtxSend | src/librvgpu/rvgpu.c:94-120 | Despite partial writes and EAGAIN every renderer gets the whole buffer once; on a failure exactly those before it have it, the failing one a prefix. |
| Transport.Reader.ReadBuf | src/rvgpu-renderer/virgl/rvgpu-virgl.c:109-153 | Refilling keeps bufpos <= bufcurlen <= buftotlen and loses no byte of the stream. |
| Transport.Reader.Read | src/rvgpu-renderer/virgl/rvgpu-virgl.c:155-183 | Returns the next bytes of the concatenated stream however it was cut into reads; fewer only at its end. |
| Commands.SaneOnBothEnds | src/rvgpu-sanity/rvgpu-sanity.c:158-381 | What the proxy's strict check sees of a request it lets through, on the control queue the first bytes by the low 32 bits of the size, the renderer's check lets through, within its size limit. |
| Messages.EncodedReads | src/rvgpu-sanity/rvgpu-sanity.c:158-381 | For every command of VIRTIO 1.2, laid out as its structure has it, with any fields and header, counted parts of any length: the answer of the check, strict or not, is the one its fields call for, and if it passes it is parsed to what it asks for. |
| Messages.WrongLength | src/rvgpu-sanity/rvgpu-sanity.c:158-381 | A command of a fixed length with any other is refused. |
| Messages.OddRefused | src/rvgpu-sanity/rvgpu-sanity.c:158-381 | So is one that is too short or too long for any, or of a type that does not belong on its queue. |
| Commands.WalksAgree | src/rvgpu-proxy/gpu/rvgpu-gpu-device.c:1524-1576 | Whenever every transfer command lies inside the buffer, the two loops over a SUBMIT_3D yield the same transfers with the same arguments, whatever lies behind it. |
| Commands.IdsAgree | src/rvgpu-renderer/virgl/rvgpu-virgl.c:484-506 | Whenever the resource ids do, they yield the same ids. |
| Commands.IdsDisagree | src/rvgpu-renderer/virgl/rvgpu-virgl.c:484-506 | Otherwise the last id is what an earlier command left. |
| Commands.CutOffTransfer | src/rvgpu-renderer/virgl/rvgpu-virgl.c:488-499 | A buffer of one transfer header: the id depends on what was there before. |
| Commands.WalksDisagree | src/rvgpu-renderer/virgl/rvgpu-virgl.c:476-510 | And otherwise some contents of the memory behind the buffer make them differ: the condition is exact. |
| Commands.WalkFindsXfers | src/rvgpu-renderer/virgl/rvgpu-virgl.c:476-510 | On the encoding of any list of virgl commands the loop yields exactly its transfer commands, in order. |
| Commands.PackedHeader | src/rvgpu-renderer/virgl/rvgpu-virgl.c:484-490 | The header word of an encoded virgl command decodes to its code, object and length. |
| Commands.XferOfPacked | src/rvgpu-renderer/virgl/rvgpu-virgl.c:488-506 | The words at an encoded transfer command are read back as its arguments. |
| TransferSize.CoversIff | src/librvgpu/res/rvgpu-res.c:380-403 | A byte count covers every row and slice of a box exactly if it reaches the end of the last row of the last slice. |
| TransferSize.Tight3d | src/librvgpu/res/rvgpu-res.c:389-403 | For a plain 3D texture and every 32-bit input with a box of at least one pixel: the computed length covers the box exactly if the true length fits 32 bits, and then is the least that does. |
| TransferSize.Tight2d | src/librvgpu/res/rvgpu-res.c:380-388 | Likewise for a plain 2D texture. |
| TransferSize.LengthCut3d | src/librvgpu/res/rvgpu-res.c:391-401 | All the 32-bit arithmetic amounts to one cut of the true length. |
| TransferSize.Tight2dSane | src/rvgpu-sanity/rvgpu-sanity.c:109-123 | With the default stride, at most 4 bytes a pixel and a box inside a resource that passed the check, the 2D length is the least that covers the box. |
| TransferSize.StrideWraps | src/librvgpu/res/rvgpu-res.c:380-388 | With a stride of 2^31, which nothing checks, 64 bytes are sent for a box that reaches behind 2^32. |
| TransferSize.NoWrap2d | src/rvgpu-sanity/rvgpu-sanity.c:109-123 | With the default stride, at most 4 bytes a pixel and a box inside a resource that passed the check, no 32-bit product wraps. |
| TransferSize.AlignUpLeast | src/librvgpu/res/rvgpu-res.c:199-202 | The result holds n exactly if the sum does not wrap; then it is the least multiple of the alignment that does. |
| TransferSize.BlocksLeast | src/librvgpu/res/rvgpu-res.c:242-342 | The blocks cover n pixels exactly if the sum does not wrap; then they are the fewest that do. |
| TransferSize.LayerStrideDropped | src/rvgpu-proxy/gpu/rvgpu-gpu-device.c:1733-1747 | For the bytes of any TRANSFER_TO_HOST_3D: what is sent covers the layout of the driver's layer_stride, which is not passed on, exactly if the cut length for the default layer stride reaches as far; without a cut, if there is one slice or the driver's layer stride is at most the default. |
| TransferSize.LayerStrideLost | src/rvgpu-proxy/gpu/rvgpu-gpu-device.c:1733-1747 | A command that passes both checks, for two slices of one pixel laid 256 bytes apart: 8 bytes are sent, and do not cover them. |
| TransferSize.BufferCovers | src/librvgpu/res/rvgpu-res.c:350-368 | For target 0 with a stride: rows a stride apart, in slices of the height of the box, are covered exactly if a row fits the stride, there is one slice or more than one row, and the product does not wrap. |
| TransferSize.RowCovers | src/librvgpu/res/rvgpu-res.c:363-364 | For target 0 without a stride the length is the least that covers the row of the box. |
| TransferSize.AllCovers | src/librvgpu/res/rvgpu-res.c:404-407 | For a target other than 0, 2 and 3 everything is sent. |
| TransferSize.NoPixels | src/librvgpu/res/rvgpu-res.c:375-403 | A 3D texture of a format without a pixel size is sent as with one of 0; of an unknown YUV format nothing is sent. |
| TransferSize.CompressedCovers | src/librvgpu/res/rvgpu-res.c:242-342 | The bytes of the blocks a box needs are all sent exactly if neither a sum nor a product wraps, and then no more. |
| TransferSize.YuvCut | src/librvgpu/res/rvgpu-res.c:204-240 | All the 32-bit arithmetic of a YUV picture amounts to one cut of the sum of its planes. |
| TransferSize.YuvCovers | src/librvgpu/res/rvgpu-res.c:204-240 | With chroma rounded up, the whole picture is sent exactly if nothing wraps, the height is even and, for chroma of half the width, the width is not one more than a multiple of 32. |
| TransferSize.WantedSent | src/librvgpu/res/rvgpu-res.c:344-414 | For every target and format: every byte of the box is sent if the condition of the lemma for it holds. |
| TransferSize.ShrIs | src/librvgpu/res/rvgpu-res.c:393-394 | The shift by the level divides by that power of two, rounding down. |
| ProxyResources.ApplyAccounted | src/rvgpu-proxy/gpu/rvgpu-gpu-device.c:1227-1358 | Create, destroy, attach and detach keep ids unique and curr_mem the sum of the attached backings, at most max_mem if that is set. |
| ProxyResources.ApplyEffect | src/rvgpu-proxy/gpu/rvgpu-gpu-device.c:1227-1358 | Create, destroy, attach and detach: for every id, what is found afterwards and which error is answered, in terms of what was found before and the memory limit. |
| ProxyResources.RunAccounted | src/rvgpu-proxy/gpu/rvgpu-gpu-device.c:1227-1358 | So does every run of them. |
| ProxyResources.SetBackingEffect | src/rvgpu-proxy/gpu/rvgpu-gpu-device.c:1291-1358 | Attaching or detaching changes the one resource and no other, and the sum by its backing. |
| ProxyResources.RemoveEffect | src/rvgpu-proxy/gpu/rvgpu-gpu-device.c:1245-1258 | Removing takes the one resource out and leaves the rest. |
| ProxyResources.ResourceTable.CreateRes | src/rvgpu-proxy/gpu/rvgpu-gpu-device.c:1227-1243 | The new table and the response are the specified ones, also for an id in use. |
| ProxyResources.ResourceTable.DestroyRes | src/rvgpu-proxy/gpu/rvgpu-gpu-device.c:1245-1258 | As specified; the backing is given back first. |
| ProxyResources.ResourceTable.AttachBacking | src/rvgpu-proxy/gpu/rvgpu-gpu-device.c:1291-1335 | As specified, with every error case and the rollback over the memory limit. |
| ProxyResources.ResourceTable.DetachBacking | src/rvgpu-proxy/gpu/rvgpu-gpu-device.c:1337-1358 | As specified, also for an unknown id. |
| ProxyResources.ResourceTable.FindRes | src/librvgpu/res/rvgpu-res.c:185-196 | The first resource with the id, or none. |
| GpuDevice.Device.SendCommand | src/rvgpu-proxy/gpu/rvgpu-gpu-device.c:442-460 | The bytes are appended to every renderer's stream, or to renderer 0's only. |
| GpuDevice.Device.SendRes | src/rvgpu-proxy/gpu/rvgpu-gpu-device.c:1272-1289 | Sends exactly the specified patches and terminator, or answers with the error for a missing resource or backing. |
| GpuDevice.Device.HandleSubmit3d | src/rvgpu-proxy/gpu/rvgpu-gpu-device.c:1524-1576 | Sends the patch groups of exactly the transfers in the buffer, in order. |
| GpuDevice.Device.ServeOne | src/rvgpu-proxy/gpu/rvgpu-gpu-device.c:1591-1861 | Response, resource table and every stream are the specified ones, for requests of any length: a refused one changes nothing and sends nothing. |
| GpuDevice.Device.ServeWaiting | src/rvgpu-proxy/gpu/rvgpu-gpu-device.c:1612-1783 | Over a whole list of requests the table, and what each renderer has been sent, are those EndToEnd is about. |
| Renderer.VirglRenderer.LoadResourcePatched | src/rvgpu-renderer/virgl/rvgpu-virgl.c:268-291 | Buffer, rest of the stream and outcome are the specified ones, for every stream. |
| Renderer.VirglRenderer.LoadResource | src/rvgpu-renderer/virgl/rvgpu-virgl.c:293-313 | As specified; without a backing nothing is read. |
| Renderer.VirglRenderer.HandleSubmit3d | src/rvgpu-renderer/virgl/rvgpu-virgl.c:476-510 | Loads once for each transfer command in the buffer, in order. |
| Renderer.VirglRenderer.AttachBacking | src/rvgpu-renderer/virgl/rvgpu-virgl.c:232-266 | As specified, with its error exits. |
| Renderer.VirglRenderer.ExecuteCommand | src/rvgpu-renderer/virgl/rvgpu-virgl.c:566-731 | One command as specified, for every stream behind it. |
| Renderer.VirglRenderer.FetchCommand | src/rvgpu-renderer/virgl/rvgpu-virgl.c:566-594 | Takes one command, or sees the end of the stream, or exits, as specified. |
| Renderer.VirglRenderer.Run | src/rvgpu-renderer/virgl/rvgpu-virgl.c:512-775 | The commands dispatched, the final table and the way it ends are those that EndToEnd is about, however the stream is cut into reads. |
| Fences.FenceBarrier | src/rvgpu-proxy/gpu/rvgpu-gpu-device.c:364-383 | A command leaves async_cmds only when every renderer has reported a fence at least as large, and every renderer it was sent to has retired it. |
| Fences.RunBarrier | src/rvgpu-proxy/gpu/rvgpu-gpu-device.c:364-383 | In every interleaving of main thread, resource thread and renderers, from the start, whatever the step. |
| Fences.RunInv | src/rvgpu-proxy/gpu/rvgpu-gpu-device.c:587-658 | Over all interleavings: reports of each renderer increase, the values written to the fence pipe never decrease, none is ahead of the slowest renderer, and async_cmds holds exactly the commands above the last value served. |
| Fences.ReceivePipe | src/rvgpu-proxy/gpu/rvgpu-gpu-device.c:617-648 | A report makes the resource thread write the minimum over all renderers, and nothing before all of them have reported. |
| Fences.LeastIsLeast | src/rvgpu-proxy/gpu/rvgpu-gpu-device.c:619-637 | The loop finds an entry no other is below. |
| Fences.OnlyServeAnswers | src/rvgpu-proxy/gpu/rvgpu-gpu-device.c:364-383 | No other step answers a parked command. |
| Fences.EveryRequestAnsweredOnce | src/rvgpu-proxy/gpu/rvgpu-gpu-device.c:1052-1109 | Over every interleaving of the steps with drains, a fetched request is parked once or in the used ring once, never both. |
| Fences.AtRest | src/rvgpu-proxy/gpu/rvgpu-gpu-device.c:1493-1514 | With room in the pipes, the system is at rest exactly when no step is left to take. |
| Fences.StuckRun | src/rvgpu-proxy/gpu/rvgpu-gpu-device.c:1639-1657 | A run of two renderers and one fenced command for renderer 0, after which it stays parked. |
| Fences.StuckAtRest | src/rvgpu-proxy/gpu/rvgpu-gpu-device.c:1639-1657 | At rest a fence is unanswered exactly if there is a second renderer and no command for all renderers as late as it: a command sent to all is never stuck. |
| Fences.NoStuckFence | src/rvgpu-proxy/gpu/rvgpu-gpu-device.c:1639-1657 | When the last fenced command went to every renderer, async_cmds is empty at rest. |
| Fences.WorkBoundsRun | src/rvgpu-proxy/gpu/rvgpu-gpu-device.c:587-658 | However the steps are scheduled, only a bounded number can follow without a new request. |
| Fences.ComesToRest | src/rvgpu-proxy/gpu/rvgpu-gpu-device.c:1493-1514 | From every reachable state some run leads to rest. |
| Fences.FenceQueue.AddResp | src/rvgpu-proxy/gpu/rvgpu-gpu-device.c:385-398 | Parks the command at the end of async_cmds. |
| Fences.FenceQueue.ProcessFences | src/rvgpu-proxy/gpu/rvgpu-gpu-device.c:364-383 | Answers exactly the commands with a fence up to the given one, in order, and keeps the others in order. |
| Fences.FenceQueue.ServeFences | src/rvgpu-proxy/gpu/rvgpu-gpu-device.c:1493-1514 | Serves every value in the pipe. |
| Fences.FenceQueue.Report | src/rvgpu-proxy/gpu/rvgpu-gpu-device.c:610-648 | The two arrays and the pipe after a report are those of the state machine. |
| Fences.FenceQueue.DrainOnce | src/rvgpu-proxy/gpu/rvgpu-gpu-device.c:1052-1109 | Answers all parked commands and then every request available. |
| Iov.IovSize | src/rvgpu-proxy/gpu/rvgpu-iov.c:61-69 | The length of all entries together. |
| Iov.CopyFromIov | src/rvgpu-proxy/gpu/rvgpu-iov.c:22-40 | The buffer starts with the first bytes of the list, as many as both have, and is unchanged behind them. |
| Iov.CopyToIov | src/rvgpu-proxy/gpu/rvgpu-iov.c:42-59 | The list starts with the data, as far as it fits, is unchanged behind it, and every entry keeps its length. |
| Vqueue.EndsWithin2047 | src/rvgpu-proxy/gpu/rvgpu-vqueue.c:68-95 | When mapping succeeds the walk visits at most 2047 descriptors, also on a cyclic chain. |
| Vqueue.StopsUnlessTrapped | src/rvgpu-proxy/gpu/rvgpu-vqueue.c:68-95 | The walk ends on every chain, exactly unless from one of the first 1024 descriptors on the next 1025 exist and none can be mapped. |
| Vqueue.SelfLoopHangs | src/rvgpu-proxy/gpu/rvgpu-vqueue.c:85-94 | A descriptor that links to itself and cannot be mapped: the walk never ends. |
| Vqueue.VisitsLimited | src/rvgpu-proxy/gpu/rvgpu-vqueue.c:74-95 | Neither list of iovecs is ever overrun, and the walk stops only when one is full or the chain ends. |
| Vqueue.LinkedAt | src/rvgpu-proxy/gpu/rvgpu-vqueue.c:91-94 | The descriptors visited start at the head, and each names the next. |
| Vqueue.Request.Collect | src/rvgpu-proxy/gpu/rvgpu-vqueue.c:68-95 | In terms of the entries of the table: the descriptors from the head on, each named by the one before, up to the end of the chain or to where one list has 1024, whichever comes first; r and w are their readable and writable memory, in order, leaving out what cannot be mapped. |
| Vqueue.GatheredSame | src/rvgpu-proxy/gpu/rvgpu-vqueue.c:68-95 | Table and head leave only one such list of descriptors. |
| Vqueue.AvailableIff | include/rvgpu-proxy/gpu/rvgpu-vqueue.h:56-59 | The wrapped indices differ exactly if requests are waiting. |
| Vqueue.HoldsMore | src/rvgpu-proxy/gpu/rvgpu-vqueue.c:104-123 | Writing at the index modulo 2^16 modulo the ring size keeps the last 1024 entries in their slots. |
| Vqueue.Queue.GetRequest | src/rvgpu-proxy/gpu/rvgpu-vqueue.c:52-99 | The request is the oldest one waiting, with one reference and its memory mapped; last_avail_idx stays the true count modulo 2^16. |
| Vqueue.Queue.SendResponse | src/rvgpu-proxy/gpu/rvgpu-vqueue.c:101-125 | Appends one used element with the head and the bytes copied, writes the response to guest memory, unmaps each iovec once, drops the reference; used->idx stays the true count modulo 2^16. |
| Vqueue.Request.Unref | src/rvgpu-proxy/gpu/rvgpu-vqueue.c:42-50 | The last reference frees the request, and only that. |
| Vqueue.Request.Unmap | src/rvgpu-proxy/gpu/rvgpu-vqueue.c:111-115 | Each mapping is undone once. |
| Requests.Control.ServeOne | src/rvgpu-proxy/gpu/rvgpu-gpu-device.c:1620-1783 | A request without fence is answered with the response and freed; one with a fence is parked, still mapped, with one reference and a header with its fence and context that already says success. |
| Requests.Control.ProcessFences | src/rvgpu-proxy/gpu/rvgpu-gpu-device.c:364-383 | Over the objects: exactly the due requests are answered, each with the header parked with it, unmapped once and freed, none twice. |
| Requests.Control.AnsweredWith | src/rvgpu-proxy/gpu/rvgpu-vqueue.c:101-125 | At any time, for every request ever answered: the used element has the length of its reply, or of the writable memory if that is less, and that memory starts with as much of the reply and is otherwise as it was when mapped. |
| Requests.HeaderFields | src/rvgpu-proxy/gpu/rvgpu-gpu-device.c:364-398 | In the bytes of a header the guest finds type, flags, fence and context where the structure has them. |
| Requests.Control.DrainOnce | src/rvgpu-proxy/gpu/rvgpu-gpu-device.c:1052-1096 | One queue: all parked requests and then all waiting ones are answered, in that order, each parked one with its own header and each other with one that says success; nothing stays parked or waiting. |
| Requests.DrainDevice | src/rvgpu-proxy/gpu/rvgpu-gpu-device.c:1052-1109 | Both queues: what is parked, then the control queue, then the cursor queue, answered as by DrainOnce; each is kicked exactly if something was answered on it. |
| Requests.SortedMove | src/rvgpu-proxy/gpu/rvgpu-gpu-device.c:376-378 | Moving one request from parked to answered keeps every request in one place, once. |
| ReverseTransfer.ReceivedAt | src/rvgpu-proxy/gpu/rvgpu-gpu-device.c:541-582 | Where enough was sent, after the scatter the guest agrees with the renderer's buffer on every byte of every line, and is as before everywhere else. |
| ReverseTransfer.BoxReceived | src/rvgpu-proxy/gpu/rvgpu-gpu-device.c:523-583 | From the bytes of any sane read back, for ends that agree on the resource and a box whose true length fits 32 bits: after the scatter the guest agrees with the renderer on every byte of every row of the box, by the driver's stride or the default one of its level, and is as before elsewhere. |
| ReverseTransfer.WholeReceived | src/rvgpu-proxy/gpu/rvgpu-gpu-device.c:523-525 | When the box is the whole resource, all that was sent is in its place and nothing else has changed. |
| ReverseTransfer.CommandIsParsed | src/rvgpu-proxy/gpu/rvgpu-gpu-device.c:502-534 | The resource thread reads every field of the command as the main thread does. |
| ReverseTransfer.WriteLinesAt | src/rvgpu-proxy/gpu/rvgpu-gpu-device.c:541-582 | The loop over the lines on a flat buffer changes exactly the bytes of the lines, each to the byte received for its place. |
| ReverseTransfer.Backing.Scatter | src/rvgpu-proxy/gpu/rvgpu-gpu-device.c:541-582 | On any fragmentation, zero-length fragments included, and for any data received, the shared cursor refines that flat loop over the lines up to the first that starts behind the cursor, unless it reads behind the data; and it ends as ScatteredIff says. |
| ReverseTransfer.ScatteredIff | src/rvgpu-proxy/gpu/rvgpu-gpu-device.c:541-582 | Which way it ends is decided beforehand. A line backtracks if it fits and runs over a fragment boundary the next one starts before. Up to the first that does: it reads too far exactly if the data are not enough; else it falls behind exactly if a line follows and some fragment is left, and is done exactly if none follows and all lines fit; else bytes of the backing are missing. |
| ReverseTransfer.BegunAll | src/rvgpu-proxy/gpu/rvgpu-gpu-device.c:547-555 | If no line but the last backtracks, these are all the lines. |
| ReverseTransfer.EnoughIff | src/rvgpu-proxy/gpu/rvgpu-gpu-device.c:543-565 | The data are enough exactly if they reach the end of the last line that starts inside the backing. |
| ReverseTransfer.OverlapBacktracks | src/rvgpu-proxy/gpu/rvgpu-gpu-device.c:547-565 | Two overlapping lines over two fragments, with enough data, for which the cursor falls behind. |
| ReverseTransfer.NoOverlapNoBacktrack | src/rvgpu-proxy/gpu/rvgpu-gpu-device.c:543-555 | With a stride of at least the line length that never happens. |
| ReverseTransfer.Backing.Seek | src/rvgpu-proxy/gpu/rvgpu-gpu-device.c:547-555 | The cursor stops at the fragment of the line start. |
| ReverseTransfer.Backing.CopyLine | src/rvgpu-proxy/gpu/rvgpu-gpu-device.c:557-581 | The part of the line inside the backing reaches its place across as many fragments as it takes. |
| ReverseTransfer.Backing.Update | src/rvgpu-proxy/gpu/rvgpu-gpu-device.c:482-499 | The whole-resource path writes the bytes to their place and takes just those from the pipe. |
| ReverseTransfer.PayloadEnough | src/rvgpu-renderer/virgl/rvgpu-virgl.c:367-375 | What the renderer sends is enough exactly if the length it computes in 32 bits reaches that far, as it does unless it wraps. |
| ReverseTransfer.UploadInside | src/rvgpu-renderer/virgl/rvgpu-virgl.c:367-375 | What it sends lies inside its buffer exactly if the low 32 bits of the offset do. |
| ReverseTransfer.UploadsIff | src/rvgpu-renderer/virgl/rvgpu-virgl.c:367-375 | For the bytes of any read back: nothing is sent from outside the buffer exactly if the command stream takes it to go on. |
| ReverseTransfer.WindowWraps | src/rvgpu-renderer/virgl/rvgpu-virgl.c:369-371 | A box that passes the sanity check, for which 4 bytes of 32 are sent and the scatter reads on. |
| ReverseTransfer.PayloadEmptyIff | src/rvgpu-renderer/virgl/rvgpu-virgl.c:367-375 | Nothing is sent exactly if the offset is at the end of the buffer or the length comes to 0. |
| ReverseTransfer.PayloadLeft | src/rvgpu-proxy/gpu/rvgpu-gpu-device.c:518-522 | A read back of one pixel, served when the resource has been dropped: the pixel stays in the pipe, in front of the next message. |
| ReverseTransfer.WindowLengthCovers | src/rvgpu-renderer/virgl/rvgpu-virgl.c:369-371 | The 32-bit length reaches the end of the last line exactly if it does not wrap. |
| ReverseTransfer.ResourceThread.ResourceTransfer | src/rvgpu-proxy/gpu/rvgpu-gpu-device.c:500-585 | For any resource the proxy has under the id, or none, and any message of the renderer: what becomes of the backing, which way the scatter ends, and how much of the payload is left in the pipe: nothing exactly if nothing was sent, or the resource is found with its backing and, for a whole resource, the backing is large enough. |
| SwapSync.RunConserves | src/rvgpu-renderer/compositor/rvgpu-compositor.c:1568-1899 | Over every run and any number of buffers: the tokens under way are the frames not yet acknowledged, in order, no more than there are buffers; acknowledgements are a prefix of the draws, and swaps show frames in order. |
| SwapSync.OneToken | src/rvgpu-renderer/renderer/rvgpu-egl.c:577-588 | composit_status[i] is set exactly if one token for buffer i is under way, and there are never two. |
| SwapSync.SameTokens | src/rvgpu-renderer/compositor/rvgpu-compositor.c:1690-1899 | Forwarding, collecting, coalescing, presenting and acknowledging only move tokens along. |
| SwapSync.NeverDrops | src/rvgpu-renderer/compositor/rvgpu-compositor.c:1002-1019 | With a single buffer the rule for a second DRAW in one frame never drops one. |
| SwapSync.NeverStuck | src/rvgpu-renderer/renderer/rvgpu-egl.c:577-588 | While the renderer waits for its next buffer, some other step is possible. |
| SwapSync.WorkBoundsRun | src/rvgpu-renderer/compositor/rvgpu-compositor.c:1568-2276 | Without new draws and events, only a bounded number of steps can follow. |
| SwapSync.RestingDone | src/rvgpu-renderer/compositor/rvgpu-compositor.c:2251-2276 | At rest every draw has been acknowledged once, in order, every buffer is free, and the frames shown are in order and end with the last draw. |
| SwapSync.AcknowledgedWasShown | src/rvgpu-renderer/compositor/rvgpu-compositor.c:2242-2276 | What is acknowledged after a swap is the frame that swap showed. |
| SwapSync.CoalescedWasOvertaken | src/rvgpu-renderer/compositor/rvgpu-compositor.c:1858-1897 | A frame acknowledged without being shown has a later one to be shown in its place. |
| SwapSync.SwapChain.TryMark | src/rvgpu-renderer/renderer/rvgpu-egl.c:577-588 | Waits exactly while the buffer is marked, else marks it. |
| SwapSync.SwapChain.SendDraw | src/rvgpu-renderer/renderer/rvgpu-egl.c:676-725 | Sends the index of the frame and goes on to the next buffer. |
| SwapSync.SwapChain.Coalesce | src/rvgpu-renderer/compositor/rvgpu-compositor.c:1858-1897 | All but the newest index are acknowledged, in order. |
| SwapSync.SwapChain.AcknowledgeShown | src/rvgpu-renderer/compositor/rvgpu-compositor.c:2251-2276 | The rest is acknowledged and cleared. |
| SwapSync.SwapChain.SwapCompleted | src/rvgpu-renderer/compositor/rvgpu-compositor.c:2546-2567 | Frees exactly the buffers the message names. |
| Touch.EveryRunAgrees | src/rvgpu-renderer/renderer/rvgpu-input.c:354-543 | Over every run of add, move, remove, send and clear in which no add gives a free slot to id -1: decoding what was sent gives olds, old_slot and old_window_id; decoding the queue as well gives slots, last_slot and last_window_id; active ids are distinct. |
| Touch.EveryRunAgreesIff | src/rvgpu-renderer/renderer/rvgpu-input.c:354-543 | For every run: this holds all along exactly if no add gives a free slot to id -1. |
| Touch.NoneBreaks | src/rvgpu-renderer/renderer/rvgpu-input.c:354-385 | A single such add breaks it. |
| Touch.AddInv | src/rvgpu-renderer/renderer/rvgpu-input.c:354-413 | Adding keeps this exactly unless the id is -1, which marks free slots, and a slot is free. |
| Touch.MoveInv | src/rvgpu-renderer/renderer/rvgpu-input.c:415-463 | Moving keeps it, for every id. |
| Touch.MoveArrives | src/rvgpu-renderer/renderer/rvgpu-input.c:415-463 | A contact that is moved is at its new place for the receiver, with its id and window; a coordinate of -1 arrives exactly if the one before was not -1, or was there already; no other contact changes. |
| Touch.MoveLost | src/rvgpu-renderer/renderer/rvgpu-input.c:415-463 | A new contact moved to x = -1 stays at 0. |
| Touch.AddArrives | src/rvgpu-renderer/renderer/rvgpu-input.c:354-385 | If a slot is free or has the id, the contact is active in the first such slot, with its window and the next tracking id, its former slot is given up, and no other contact changes. |
| Touch.AddRefused | src/rvgpu-renderer/renderer/rvgpu-input.c:354-385 | If none is, nothing is sent and no slot changes. |
| Touch.RemoveArrives | src/rvgpu-renderer/renderer/rvgpu-input.c:465-485 | A contact that is removed is active no more, no slot has its id, and no other contact changes. |
| Touch.UnknownIgnored | src/rvgpu-renderer/renderer/rvgpu-input.c:415-485 | An id no slot has is neither moved nor removed. |
| Touch.SendArrives | src/rvgpu-renderer/renderer/rvgpu-input.c:509-531 | Contacts and BTN_TOUCH count for the receiver from the report on: after a send it has all that was queued. |
| Touch.ClearArrives | src/rvgpu-renderer/renderer/rvgpu-input.c:533-543 | After a rollback it is as if nothing had been queued. |
| Touch.RemoveInv | src/rvgpu-renderer/renderer/rvgpu-input.c:465-485 | Removing keeps it, for every id. |
| Touch.SendInv | src/rvgpu-renderer/renderer/rvgpu-input.c:509-531 | Sending commits. |
| Touch.ClearInv | src/rvgpu-renderer/renderer/rvgpu-input.c:533-543 | Clearing rolls back. |
| Touch.InputState.FindSlot | src/rvgpu-renderer/renderer/rvgpu-input.c:306-322 | The first slot with the id, or none. |
| Touch.InputState.Add | src/rvgpu-renderer/renderer/rvgpu-input.c:354-385 | State and queue as specified, also when the id is in use or no slot is free. |
| Touch.InputState.Move | src/rvgpu-renderer/renderer/rvgpu-input.c:415-463 | As specified. |
| Touch.InputState.Remove | src/rvgpu-renderer/renderer/rvgpu-input.c:465-485 | As specified. |
| Touch.InputState.SendQueue | src/rvgpu-renderer/renderer/rvgpu-input.c:509-531 | As specified; an empty queue sends nothing. |
| Touch.InputState.ClearQueue | src/rvgpu-renderer/renderer/rvgpu-input.c:533-543 | As specified. |
| SlotTable.AssertionHoldsIff | src/rvgpu-proxy/gpu/rvgpu-input-device.c:345-365 | The assertion in get_slot holds in every run exactly if sources times slots is at most 64; the limits of the code are 16 and 16. |
| SlotTable.FullTable | src/rvgpu-proxy/gpu/rvgpu-input-device.c:345-365 | A full table holds 64 different contacts, so a further one needs more than 64 to exist. |
| SlotTable.StepInv | src/rvgpu-proxy/gpu/rvgpu-input-device.c:373-421 | No two target slots share a source and source slot. |
| SlotTable.RunHolds | src/rvgpu-proxy/gpu/rvgpu-input-device.c:345-426 | Over every run: the assertion in get_slot holds exactly as long as at each event its contact is in use, named since it last ended, or fewer than 64 are. |
| SlotTable.SucceedsIff | src/rvgpu-proxy/gpu/rvgpu-input-device.c:345-365 | The assertion fails exactly if 64 other contacts are in use. |
| SlotTable.StepHolds | src/rvgpu-proxy/gpu/rvgpu-input-device.c:373-421 | The occupied slots are exactly the contacts in use, after every event, and every contact keeps its slot. |
| SlotTable.EndFrees | src/rvgpu-proxy/gpu/rvgpu-input-device.c:414-417 | Ending a contact frees its slot, so that any event can follow. |
| SlotTable.FailsWhenMany | src/rvgpu-proxy/gpu/rvgpu-input-device.c:345-365 | Putting down more than 64 different contacts makes the assertion fail. |
| SlotTable.InputDevice.GetSlot | src/rvgpu-proxy/gpu/rvgpu-input-device.c:345-365 | The slot of the contact, else the first free one, else the assertion fails. |
| SlotTable.InputDevice.Translate | src/rvgpu-proxy/gpu/rvgpu-input-device.c:373-426 | The slot table after an event is the specified one. |
| Layout.OrderKept | src/rvgpu-renderer/compositor/rvgpu-compositor.c:329-383 | Surfaces that are not named keep their relative order. |
| Layout.NextToReference | src/rvgpu-renderer/compositor/rvgpu-compositor.c:359-381 | With the reference in the list, unless it is there only as a real number and id 0 is added, the accepted surfaces form one block next to it, in reverse order of the request. |
| Layout.ReferenceKept | src/rvgpu-renderer/compositor/rvgpu-compositor.c:341-357 | Exactly then the reference outlasts the removal of the accepted ids. |
| Layout.BlockEnds | src/rvgpu-renderer/compositor/rvgpu-compositor.c:359-381 | An appended block ends the list and a prepended one starts it; with a reference that is not there it is appended. |
| Layout.AcceptedPlace | src/rvgpu-renderer/compositor/rvgpu-compositor.c:341-353 | Of the request only what names the reference is dropped, and the rest keeps its order. |
| Layout.RemovalOrder | src/rvgpu-renderer/compositor/rvgpu-compositor.c:385-401 | Surfaces that are not removed keep their order. |
| Layout.ServeOccurs | src/rvgpu-renderer/compositor/rvgpu-compositor.c:329-401 | For lists and requests of distinct integer ids of 32 bits: an accepted id is there once, a removed one is not, every other as before. |
| Layout.RunProper | src/rvgpu-renderer/compositor/rvgpu-compositor.c:329-401 | With distinct integer ids of 32 bits in every request no surface is in the list twice, after any run of requests. |
| Layout.RunSingle | src/rvgpu-renderer/compositor/rvgpu-compositor.c:329-401 | Over any run of requests, whatever wide or real ids they name besides: if none names an integer id of 32 bits twice, none is ever in the list twice. |
| Layout.NamedOccurs | src/rvgpu-renderer/compositor/rvgpu-json-helpers.c:151-164 | For all lists: a named int occurs as often as requested, plus once for each entry holding it as a real number, which the removal takes for id 0, or as a wider integer that narrows to it, which it does not see. |
| Layout.IntegerOccurs | src/rvgpu-renderer/compositor/rvgpu-compositor.c:341-357 | For integer ids of any width: the entries under an id stay unless an accepted id narrows to it. |
| Layout.ReplacedIff | src/rvgpu-renderer/compositor/rvgpu-compositor.c:341-357 | Adding a surface leaves its integer id in the list once, whatever was there, exactly if the id fits 32 bits. |
| Layout.WideTwice | src/rvgpu-renderer/compositor/rvgpu-json-helpers.c:104-118 | Adding id 2^32 + 1 again removes surface 1 and leaves the id there twice. |
| Layout.RealTwice | src/rvgpu-renderer/compositor/rvgpu-json-helpers.c:151-164 | A surface with the real number 3 as its id stays when 3 is added. |
| Layout.LayoutList.RemoveKey | src/rvgpu-renderer/compositor/rvgpu-json-helpers.c:151-164 | Removes every entry with the key, keeps the others in order. |
| Layout.LayoutList.InsertAt | src/rvgpu-renderer/compositor/rvgpu-json-helpers.c:45-55 | Inserting each entry at the same index puts the block there in reverse. |
| Layout.LayoutList.MakeRoom | src/rvgpu-renderer/compositor/rvgpu-compositor.c:341-357 | Drops from the request what names the reference, and from the list what the rest names. |
| Layout.LayoutList.Add | src/rvgpu-renderer/compositor/rvgpu-compositor.c:329-383 | The list as specified, for every order and reference. |
| Layout.LayoutList.Remove | src/rvgpu-renderer/compositor/rvgpu-compositor.c:385-401 | The list as specified. |

## Left out

- The build with `VSYNC_ENABLE`: a request with both flags would be queued twice.
- GPU reset, reconnecting and the TCP plumbing; a session that ends is the end of a stream.
- OpenGL, EGL, GBM and Wayland calls, and virglrenderer, which is a map of resources with one optional flat buffer each
  and fences retired in the order created; its creates succeed.
- `TAILQ_FOREACH` in process_fences frees the entry it stands on; the model takes the next one before that.
- Failing allocations, and touch queues longer than 65535 events.
- Guest memory that changes while a request is served: the proxy checks a copy of the command and forwards the original.
- Aliasing: the fragments of a backing, and the iovecs of a request, are taken to be different memory.
- The format tables (bytes per pixel, block sizes, planes) are parameters; rvgpu-utils is not part of this model.
- Transport.Reader.ReadBuf: counts a poll error as the end of the stream, also when it comes together with data.
  rvgpu_recv_all and read_from_pipe are taken to return the bytes asked for.
- GpuDevice.Device.SendCommand: leaves out pipes that fail; the stream then ends for that renderer (Transport.CtxSend has
  what each renderer got).
- GpuDevice.Device.ServeOne: gives the response type only; the payload of display info and capset answers is left out.
- CommandStream.CommandInSync: asks for new resource ids (a create under a live id is refused by the proxy but already
  forwarded), read backs of live resources (the proxy dereferences NULL otherwise) and attached totals below 2^32. A read
  back from behind the buffer counts as the renderer's end, also where the memory there can be read. The last, partial
  word of a SUBMIT_3D whose size is not a multiple of four counts as left over from an earlier command.
- ProxyResources.ResourceTable.AttachBacking: takes guest memory to be mapped; the code does not look at what map_guest
  returns there.
- TransferSize.Tight3d: takes a shift by a level of 32 or more, which the sanity check lets through and C leaves
  undefined, to give 0.
- TransferSize.LengthCut3d: does the same, as do the header of a read back and the stride of a scatter.
- Session.Run: serves the requests before the first is read; the pipes have room.
- Vqueue.Request.Collect: asks for a chain on which the walk ends, as StopsUnlessTrapped says; one that does not end has
  no result.
- Vqueue.Queue.GetRequest: asks for the same.
- Requests.Control.ServeOne: asks for the same.
- Requests.Control.DrainOnce: asks for the same of every waiting chain.
- Requests.DrainDevice: asks for the same.
- Fences.AtRest: takes the pipes to have room; the code writes to pipes of bounded size and can wait there.
- Driver fences are taken to be increasing, at least 1, and below 2^32; each renderer is sent a command at most once.
- ReverseTransfer.ResourceThread.ResourceTransfer: asks for a message the renderer was able to send, as UploadsIff says,
  and for buffers below 2^32 bytes.
- Layout.NamedOccurs: takes real numbers to be in the range of an int, beyond which their conversion is undefined.
- SwapSync covers one scanout with vsync on and a surface that stays registered; that a buffer is not rewritten while
  still shown is not claimed, as the acknowledgement comes with the swap. A message between threads arrives whole.
- Touch.EveryRunAgrees: leaves BTN_TOUCH uncompared with the contacts, as it goes up with any of them, and positions of
  -1; coordinates are parameters, already transformed.
- The event stream that the proxy merges from several touch sources, beyond the slot table.
- JSON parsing, locking of the layout list, and the properties of a surface other than its id.
- Option parsing, udev and process handling, capability sets, generated protocol files.
