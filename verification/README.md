# Verified models of the Linux driver adapter

This project models the parts of the HDF adapter for Linux whose correctness is
arithmetic, bookkeeping or ordering rather than hardware, and proves what they keep.

- **FunctionFS variant** (`model/usb/device/f_generic.c`). User space writes USB
  descriptors and string tables; the driver validates them once, later copies and
  rewrites them in place, hands events to user space through a four-slot queue, and
  lets user space answer control requests.
  `DescWalk`, `OsDescs` and `DescParser` are validation; `DescCodec`, `OsCodec` and
  `DescMessage` are the messages themselves, as values with named fields, and what is
  accepted and kept of them; `BindModel`, `BindChunk`, `BindDescsProof`,
  `BindNumsProof`, `OsBind`, `BindTheorem`, `NumberMaps`, `FuncBind` and `BindExample`
  are binding and number translation, `BindMessage` and `HostReport` what a bind makes of
  a message's fields and tells the host; `StringTables` is the string parser; `EventQueue` and `Ep0Handshake` are ep0; `EpFiles` is the active
  function.
- **System events** (`manager/src/hdf_kevent.c`): `Kevent`.
- **Allocator** (`osal/src/osal_mem.c`): `OsalMem`; **array carving**
  (`model/usb/device/u_f.h`): `Vla` over `Bits`.
- **Log formats** (`osal/src/osal_deal_log_format.c`): `LogFormat`.
- **MIPI transmitter** (`platform/mipi_dsi`): `PhyTiming` and `MipiFifo`.
- **WLAN queue** (`model/network/wifi/platform/src/hdf_wlan_queue.c`): `WlanQueue`.

`Bytes` holds bytes, little-endian numbers and call outcomes.

## How it is put together

The parsers and the bind passes are loops over arrays and fields, and so are their
models: `DescParser.FfsData`, `FuncBind.FfsFunction`, `StringTables.FfsStrings`,
`EventQueue.Events`, `EpFiles.FfsData`, `Kevent.KeventModule`, `OsalMem.Memory`,
`MipiFifo.Fifo` and `WlanQueue.Queue` are classes whose methods are proved against
functions on sequences, and the theorems are about those functions. Descriptors are
compared through `DescWalk.At`: the offset a walk reaches after k descriptors, or -1.
What the bytes mean is said by encodings: `DescCodec.Encode`, `OsCodec.EncodeFeature` and
`DescMessage.EncodeMessage` lay out named fields as the standards do, and validation and
binding are shown to be about those fields.
`Outcome` has a `Fault` for an access outside a buffer or through NULL, so a theorem
can say exactly when one happens. Protocols (`Ep0Handshake`, `Kevent`) are step
systems: a stretch of code that holds its lock is one step, and every run of steps
is covered.

What the environment must provide is written as preconditions or parameters:
`BindModel.EnvOk` (a hardware endpoint is never number 0, an interface id fits the
byte it is written to, there are as many string ids as strings, `kzalloc` gives less
than 4 GiB and the structures it carves are smaller than 64 KiB); the return value
`zeroRet` of `memcpy_s` and `memset_s` for an empty destination (a copy of more than
2^31 - 1 bytes is refused with ERANGE); the addresses `kmalloc` and `vmalloc` return;
and, for a bind, what an earlier bind of the function left in the reverse map. Distinct endpoint numbers and interface ids are not
assumed but appear as the exact condition of the round trips. The descriptor types
are those of sections 9.4 and 9.6 of USB 2.0 and its class documents; the values of
the FunctionFS magic numbers, flags and event types are those of the Linux user
interface header, which is not part of this model.

## What the code does not keep

Where a wished-for property is false of the code, the model keeps the code and the
exact condition is proved.

- The list of a speed's descriptors is sized by a 32-bit `count + 1`. Validation accepts
  2^32 - 1 zero-length descriptors, and then the list has no entry and binding stores
  outside it (`BindExample.EndlessFaults`). Binding also reads through a NULL descriptor
  when high and super speed describe endpoints and full speed describes none. Up to its
  fix-ups, and unless a copy into the OS regions is refused, a bind that has descriptors,
  memory for its tables, and either an interface or a `zeroRet` of 0 (`BindTheorem.Started`)
  faults exactly when it comes to such a list or such a pointer; a repeated address or a
  refused endpoint ends it with an error first (`BindTheorem.BindOutcome`).
- If empty copies are refused, a property with an empty name or no data takes its slot
  but is filed under no interface; the tables hold the section if and only if no copy was
  refused (`OsBind.FiledExactly`). The walk goes on after such a record at the right place
  exactly when the returned error happens to be the record's length (`OsBind.FirstDrop`).
  What it reads there decides (`BindTheorem.RefusedOutcome`): behind the section's last
  record nothing is read, and the bind succeeds with the property lost; it reads or writes
  outside the buffer or its regions if a record follows that leaves them there, or a
  feature that would begin behind the buffer's end; it fails if what it takes for a
  feature is none. A property can be lost, and a bind can fault, on accepted buffers
  (`BindExample.NamelessAreLost`).
- Unbinding a function leaves its reverse map as it was, and binding only writes to it. From
  the second bind on a request for an endpoint the function does not have is delivered
  whenever an earlier bind was given that number (`BindExample.StaleNumber`,
  `NumberMaps.ForeignEndpointRejected`, `NumberMaps.MapRemembers`).
- A reply on ep0 is checked under the lock but queued after it is released, and can answer a
  request user space has not seen (`Ep0Handshake.ReplyHitsUndelivered`). Unless a store is
  late, as below, it answers the setup last delivered, with no event since, if and only
  if no event was added after the locked re-check, that is, if `setup_state` is still
  PENDING (`Ep0Handshake.QueuesAreExact`, `Ep0Handshake.ReplyInTime`).
- The re-check itself can let such a reply through when the store to `setup_state` in the
  completion handler is delayed past the wake-up it follows (`Ep0Handshake.LateStore`); the
  comment at model/usb/device/f_generic.c:443-454 rules that state out. In every run it does
  so exactly when both an event and a delayed store fall between the two locked checks
  (`Ep0Handshake.RepliesAreExact`).
- A stall is decided under the lock but made without it, and can hit a newer request
  (`Ep0Handshake.StallHitsUndelivered`). When that store is not delayed, it hits the
  request last delivered if and only if no event was added in between, that is, if
  `setup_state` is still PENDING (`Ep0Handshake.StallsAreExact`, `Ep0Handshake.StallInTime`).
- String tables in two or more languages are never accepted, since the inner loop
  counts the shared string count down (`StringTables.FfsStrings.GotStrings`).
- An alignment beyond 2^32 can lose the upper bits of the header's offset, and then
  freeing does not find the block (`OsalMem.AlignedRoundTrip`).
- The prepare times meet the protocol exactly in the stated ranges of rates; from
  29258 to 29371 Mbit/s the clock meets it only because the error value 255 happens
  to fit (`PhyTiming.ClkPrepareMet`, `PhyTiming.ClkOverflows`).
- A push to a full WLAN queue returns the unlock's result
  (`WlanQueue.Queue.Push`).

## Model

| member | source | states |
|---|---|---|
| DescWalk.WalkPrefix | model/usb/device/f_generic.c:2062-2097 | A walk that reaches its k-th descriptor reached every earlier one at no later offset, and its endpoint list and totals only grow. |
| DescWalk.WalkStep | model/usb/device/f_generic.c:1936-2060 | Descriptors do not overlap: each ends at or before the next begins. |
| DescWalk.WalkAppend | model/usb/device/f_generic.c:3066-3116 | Walking a + b descriptors is walking a, then b from where that stopped. |
| DescWalk.EpOffsApart | model/usb/device/f_generic.c:2062-2097 | Endpoint descriptors are listed in order of offset, at least seven bytes apart and inside the walk. |
| DescWalk.EpOffsComplete | model/usb/device/f_generic.c:2062-2097 | Every endpoint descriptor the walk visits is on the list. |
| DescWalk.TotalsBound | model/usb/device/f_generic.c:2099-2147 | Every interface number and string index met is within the totals the walk reports. |
| DescWalk.FrameDeterminesWalk | model/usb/device/f_generic.c:2062-2097 | A buffer whose headers are unchanged is walked through the same offsets. |
| DescWalk.BodyWriteKeepsFrame | model/usb/device/f_generic.c:2699-2842 | A write inside a descriptor, past its header, touches no header of the walk. |
| DescWalk.WalkLocal | model/usb/device/f_generic.c:2062-2097 | A walk and all its summaries depend on nothing beyond the two bytes behind its end, which a last descriptor shorter than its header is read into. |
| OsDescs.PropRecordIsExact | model/usb/device/f_generic.c:2269-2343 | An accepted property record consumes exactly 14 + name + data bytes, with no wrap although its length is kept in a byte. |
| OsDescs.FeaturesAccounted | model/usb/device/f_generic.c:2205-2343 | What a section's properties are said to take, headers included, is within the bytes it consumes. |
| OsDescs.FeaturesLocal | model/usb/device/f_generic.c:2205-2267 | An OS section that reads the same is found the same: same end, same properties, same ids. |
| OsDescs.FeaturesPrefix | model/usb/device/f_generic.c:2205-2267 | Features found later extend what was found before. |
| OsDescs.ReservedIsIgnored | model/usb/device/f_generic.c:2269-2343 | Whatever is written to the reserved byte of a compatibility record, the record is accepted or refused as before and the same is read from it. |
| OsDescs.CleanedAt | model/usb/device/f_generic.c:2269-2343 | The cleaned buffer differs from the user's in the reserved bytes alone, which are 1. |
| DescParser.FfsData.DataDoEntity | model/usb/device/f_generic.c:2099-2147 | The counters and the address map take up one interface, string or endpoint; an endpoint out of order or one too many is refused. |
| DescParser.FfsData.DoSingleDesc | model/usb/device/f_generic.c:1936-2060 | Accepts a descriptor exactly when its framing and its endpoint fit, and then counts what it holds; on the encoding of a descriptor, that is decided by its fields, and the string and interface counted are those in them. |
| DescParser.FfsData.DoDescs | model/usb/device/f_generic.c:2062-2097 | Accepts k descriptors exactly when all fit, and ends where the walk ends with the walk's totals. |
| DescParser.FfsData.DataDoOsDesc | model/usb/device/f_generic.c:2269-2343 | Accepts a record exactly when it is well formed, counts its property, forces the reserved byte, and returns its length. |
| DescParser.FfsData.DoSingleOsDesc | model/usb/device/f_generic.c:2179-2203 | The same for the records of one feature. |
| DescParser.FfsData.DoOsDescs | model/usb/device/f_generic.c:2205-2267 | The same for the features of the whole section. |
| DescParser.FfsData.ReadSections | model/usb/device/f_generic.c:2408-2441 | The three speeds are accepted exactly when each walk succeeds and every speed that declares anything declares the same; the counters and the map are then those of the declaration. |
| DescParser.FfsData.ReadHeader | model/usb/device/f_generic.c:2358-2407 | Which headers are accepted, with what counts, and exactly when -ENOSYS is returned. |
| DescParser.FfsData.GotDescs | model/usb/device/f_generic.c:2345-2475 | From a fresh state a buffer is accepted if and only if after the header come exactly the announced descriptors and OS descriptors, with nothing left over; counters, address map and kept bytes are then what binding relies on. |
| DescParser.DeclaredByAll | model/usb/device/f_generic.c:2099-2147 | Every speed that declares an endpoint or interface declares the same endpoints, in order, and interfaces as the whole. |
| DescCodec.WalkOfEncoded | model/usb/device/f_generic.c:1936-2097 | A walk over the encoding of any descriptors is accepted exactly when the fields of each are allowed; end, endpoint addresses, interfaces and strings are then those of the fields. |
| DescCodec.WalkIsEncoded | model/usb/device/f_generic.c:1936-2097 | Every accepted walk that visits no descriptor shorter than its header is over the encoding of allowed descriptors. |
| DescCodec.TheyAreLargest | model/usb/device/f_generic.c:2099-2125 | The totals are the largest of the fields: interface numbers, plus one, and string indices. |
| OsCodec.FeaturesOfEncoded | model/usb/device/f_generic.c:2205-2343 | The encoding of any OS features is accepted exactly when the fields of each are allowed; the properties and ids found are those in the fields. |
| OsCodec.FeaturesAreEncoded | model/usb/device/f_generic.c:2205-2343 | Every accepted OS section is the encoding of allowed features. |
| DescMessage.MessageDecides | model/usb/device/f_generic.c:2345-2475 | A message of either format, given by its flags, lists of descriptors and OS features, is accepted exactly when its fields are allowed and the speeds agree. |
| DescMessage.AcceptedIsMessage | model/usb/device/f_generic.c:2345-2475 | Every accepted buffer without descriptors shorter than their header is such a message. |
| DescMessage.WriteDescriptors | model/usb/device/f_generic.c:358-381 | Writing a message to ep0: refused below 16 bytes, else accepted exactly when its fields are allowed. Kept are its counts, the largest string index, the largest interface number plus one, the endpoint addresses in order, the properties and the ids. |
| DescMessage.StorageNeedsOneString | model/usb/device/f_generic.c:1984-1997 | One interface of class 8, protocol 0x50 and string 1: one string and one interface are counted. |
| BindChunk.ChunkLaidOut | model/usb/device/f_generic.c:2997-3018 | The twelve arrays of the bind allocation are aligned, apart and inside it, each as large as what the passes put there; its size has not wrapped, and the endpoints, by which it is freed, begin it. |
| BindChunk.CountsAddUp | model/usb/device/f_generic.c:3109-3112 | When the allocation can be had and no list has wrapped, the sum of the counts fits 32 bits. |
| BindDescsProof.AddrIndexIs | model/usb/device/f_generic.c:2689-2697 | Looking up an address of the map finds the first endpoint that has it. |
| BindDescsProof.AllocatingPass | model/usb/device/f_generic.c:2699-2787 | The first speed with endpoints succeeds exactly when addresses are distinct and the gadget grants each; one endpoint is configured for each. |
| BindDescsProof.CopyingPass | model/usb/device/f_generic.c:2699-2787 | A later speed, when full speed has endpoints, always succeeds and copies their new addresses, and their packet sizes where it has none. |
| BindDescsProof.FaultingPass | model/usb/device/f_generic.c:2741-2755 | A later speed, when full speed has no endpoints, reads through NULL at its first endpoint. |
| BindDescsProof.SpeedListed | model/usb/device/f_generic.c:2717-2728 | One pass with its list: it stores outside the list exactly when the list has no entry, and is otherwise decided by the descriptors. |
| BindDescsProof.SpeedsOutcome | model/usb/device/f_generic.c:3066-3104 | The three speeds: exactly when they fault, by a list without entries or a NULL descriptor, exactly when they fail, and that they stop where validation stopped with every endpoint rewritten. |
| BindNumsProof.NumbersInRange | model/usb/device/f_generic.c:2789-2842 | Every interface number and string index the last pass meets is within its table. |
| BindNumsProof.NumsPass | model/usb/device/f_generic.c:3109-3116 | The last pass never leaves the buffer or a table, fails exactly when an interface gets no id, and visits the offsets validation visited. |
| OsBind.EmptyPropDropped | model/usb/device/f_generic.c:2895-2915 | When empty copies are refused, a property with an empty name or no data takes its slot, no interface gets it, and the error is returned as its length. |
| OsBind.RecordReached | model/usb/device/f_generic.c:2844-2933 | One more record of the walk: as long as no copy is refused it is filed and the walk is where validation was; from the first refusal on a slot stays lost, wherever the walk goes. |
| OsBind.FeaturesFiled | model/usb/device/f_generic.c:3118-3138 | The same for the walk over any number of whole features. |
| OsBind.FiledExactly | model/usb/device/f_generic.c:2844-2933 | Binding succeeds with tables that hold exactly the section's properties and ids if and only if no copy is refused; it has then walked the offsets validation walked, no cursor left its region and no index its table. |
| OsBind.FirstDrop | model/usb/device/f_generic.c:2895-2915 | At the first refused copy the walk stands at the validated record, and goes on at the validated next one if and only if the error returned is that record's length. |
| OsBind.StrayFaults | model/usb/device/f_generic.c:2873-2925 | Reading a record where none was validated leaves the buffer or a region exactly when the stated sizes read there do; it never returns an error the walk stops at. |
| OsBind.AfterDrop | model/usb/device/f_generic.c:2205-2343 | What the walk comes to by what is read behind the first refused copy: a fault, an error, or, in the section's last record, its end. |
| HostReport.SectionReported | model/usb/device/f_generic.c:2895-2925 | When no copy is refused, every property is filed with its name and data, with the lengths of both as the host is sent them (each character of a name, and of text, in two bytes, numbers and binary data as they are), and every interface with exactly its own properties, in order, and their size together. |
| HostReport.PropSent | model/usb/device/f_generic.c:2873-2925 | One property adds to its interface the size of what the host is sent of it. |
| BindTheorem.BindOutcome | model/usb/device/f_generic.c:2982-3140 | A bind of an accepted buffer up to its fix-ups. Unless a copy is refused, for which see RefusedOutcome: exactly when it faults and when it succeeds. Whenever it succeeds: every byte, table and number it leaves (new addresses, packet sizes, interface numbers and string ids, all else as the user wrote it), and the OS tables if and only if no copy was refused. |
| BindTheorem.OsWalkDecides | model/usb/device/f_generic.c:3118-3138 | Once endpoints and interfaces are granted, the bind comes to what the walk over the OS section comes to, on bytes and numbers bound as stated. |
| BindTheorem.RefusedOutcome | model/usb/device/f_generic.c:2895-2915 | A bind in which a copy is refused, by the bytes behind the first one: it faults when a record that follows leaves the buffer or its regions there, or a feature that follows begins behind the buffer; fails when that is no feature; and succeeds when nothing follows. |
| BindMessage.BoundIsEncoding | model/usb/device/f_generic.c:2699-2842 | The bytes a successful bind leaves are the encoding of the message's descriptors, one for one: interface numbers and strings replaced by the device's, endpoints with the hardware's address and, where it is due, packet size, all other fields and the OS section as the user sent them. |
| BindMessage.DescIsRenumbered | model/usb/device/f_generic.c:2789-2842 | One descriptor renumbered, field by field. |
| BindExample.SomethingBinds | model/usb/device/f_generic.c:2741-2755 | A buffer of two speeds binds as full and high speed, and faults as high and super speed. |
| BindExample.EndlessFaults | model/usb/device/f_generic.c:2717-2728 | An accepted buffer of 20 bytes with 2^32 - 1 full-speed descriptors, whose bind faults. |
| BindExample.NamelessAreLost | model/usb/device/f_generic.c:2895-2915 | Accepted buffers with nameless properties: they are filed if and only if empty copies succeed. With one the bind succeeds in either case; with two it reads outside the buffer whenever the error returned is above 16. |
| BindExample.StaleNumber | model/usb/device/f_generic.c:3563-3572 | Two binds of one function, with endpoint number 2 and then 3: a request for endpoint 2 is then still delivered. |
| FuncBind.FfsFunction.EpAddrToIdx | model/usb/device/f_generic.c:2689-2697 | The lookup loop finds the first entry with the address. |
| FuncBind.FfsFunction.BindDoDescs | model/usb/device/f_generic.c:2699-2787 | The callback's effect on the list, bytes, endpoint table and reverse map, with its errors, its store outside the list and its NULL access. |
| FuncBind.FfsFunction.DoDescs | model/usb/device/f_generic.c:2062-2097 | The loop is the walk, the list holds the offsets visited and then NULL, and a store outside the list is met exactly as stated. |
| FuncBind.FfsFunction.BindDoNums | model/usb/device/f_generic.c:2789-2842 | Both numbers of a descriptor are replaced by the device's, or the gadget's error is returned; on the encoding of a descriptor, it is the named fields that are replaced. |
| FuncBind.FfsFunction.DoAllNums | model/usb/device/f_generic.c:3109-3116 | The loop over all descriptors. |
| FuncBind.FfsFunction.BindProp | model/usb/device/f_generic.c:2873-2925 | One property: which slot and bytes are taken and what is stored in them, in the source's order, also when a copy is refused; when none is, the lengths stored are those of what the host is sent. |
| FuncBind.FfsFunction.BindDoOsDesc | model/usb/device/f_generic.c:2844-2933 | One OS record of either kind, wherever the walk stands, a copy too large to be made included. |
| FuncBind.FfsFunction.BindFeatures | model/usb/device/f_generic.c:2205-2267 | The loops over features and records. |
| FuncBind.FfsFunction.BindPasses | model/usb/device/f_generic.c:2982-3140 | The bind up to its fix-ups on any buffer, valid or not, from any reverse map, with its errors in order, lack of memory included. |
| FuncBind.FfsFunction.Bind | model/usb/device/f_generic.c:2982-3140 | The same on validated descriptors, whatever the reverse map holds: exactly when it faults or succeeds unless a copy is refused; on success the lists hold the offsets validation found, the bytes are the encoding of the message's descriptors as bound, the tables are as stated, and the OS tables hold the section, and tell the host what it says, if and only if no copy was refused. |
| FuncBind.FfsFunction.Unbind | model/usb/device/f_generic.c:3563-3572 | The tables, lists and interface numbers are gone, so the function can be bound again; the reverse map is as it was. |
| FuncBind.VisitedAreValidated | model/usb/device/f_generic.c:3066-3104 | The list of a speed holds the offsets validation found, and then NULL. |
| FuncBind.FfsFunction.FindInterface | model/usb/device/f_generic.c:3394-3405 | The first user interface with the host's number, or -EDOM when none has it. |
| FuncBind.FfsFunction.TranslateIndex | model/usb/device/f_generic.c:3319-3342 | The wIndex delivered to user space, by recipient and flags. |
| NumberMaps.RevMapIs | model/usb/device/f_generic.c:2770-2776 | After a bind the reverse map holds the last endpoint given each number, and for numbers none was given what it held before. |
| NumberMaps.MapRemembers | model/usb/device/f_generic.c:3563-3590 | Over any series of binds of one function: an entry is 0 exactly when none of them was given the number, and otherwise as the last that was left it. |
| NumberMaps.EndpointsRoundTrip | model/usb/device/f_generic.c:3388-3392 | Whatever the map held before, every endpoint is found by its number if and only if the numbers are distinct. |
| NumberMaps.RevmapIntf | model/usb/device/f_generic.c:3394-3405 | The first interface bound to the number; -EDOM exactly when none is. |
| NumberMaps.InterfacesRoundTrip | model/usb/device/f_generic.c:3394-3405 | Every interface is found by its number if and only if the numbers are distinct. |
| NumberMaps.EndpointRequest | model/usb/device/f_generic.c:3319-3336 | After a bind, a request for an endpoint's hardware number is delivered with its index, or its original address when addresses are virtual. |
| NumberMaps.ForeignEndpointRejected | model/usb/device/f_generic.c:3388-3392 | A request is refused exactly when this bind gave no endpoint the number and the entry was 0 before; for a number this bind did not give, what an earlier one left is delivered. |
| NumberMaps.InterfaceRequest | model/usb/device/f_generic.c:3319-3325 | After a bind, a request for the number in an interface descriptor is delivered with the user's own number. |
| NumberMaps.RequestsByRecipient | model/usb/device/f_generic.c:3319-3342 | The wIndex delivered, or the error, for every recipient: interface, endpoint, and any other, which only the flag for all recipients lets through, unchanged. |
| StringTables.FfsStrings.StringsOfLanguage | model/usb/device/f_generic.c:2560-2585 | The inner loop ends, finds exactly the counted strings, writes only wanted ones, and begun with a used-up count always fails. |
| StringTables.FfsStrings.Languages | model/usb/device/f_generic.c:2547-2591 | The outer loop ends, stays within the tables, and succeeds only for one language. |
| StringTables.FfsStrings.GotStrings | model/usb/device/f_generic.c:2477-2608 | Exactly which buffers are accepted, when memory is the reason, and the tables left behind. |
| StringTables.ChunkHolds | model/usb/device/f_generic.c:2515-2524 | In a chunk that can be allocated neither 32-bit count has wrapped, so all writes have their place. |
| StringTables.ParseEncoded | model/usb/device/f_generic.c:2543-2598 | Parsing the encoding of a language and its strings accepts it and finds exactly them. |
| StringTables.AcceptedIsEncoding | model/usb/device/f_generic.c:2543-2598 | Every accepted buffer is the encoding of what is found in it: nothing is left over. |
| StringTables.AcceptedExactly | model/usb/device/f_generic.c:2485-2598 | When strings are needed, the buffers accepted are exactly the encodings of one language with at least that many strings. |
| StringTables.NoneNeeded | model/usb/device/f_generic.c:2485-2511 | When none are, exactly the buffers with a sound header. |
| StringTables.EntriesAreStrings | model/usb/device/f_generic.c:2560-2580 | Table entry i points at string i, which ends at its NUL. |
| EventQueue.ShapeMeans | model/usb/device/f_generic.c:2628-2634 | The queue's shape spelled out: one event a slot, resume before suspend, lifecycle before setup. |
| EventQueue.ShapeFits | model/usb/device/f_generic.c:2628-2634 | Such a queue has at most four events. |
| EventQueue.AddAllShape | model/usb/device/f_generic.c:2611-2676 | Every history of adds leaves a queue of that shape. |
| EventQueue.ShapeReached | model/usb/device/f_generic.c:2611-2676 | The queues left by histories of adds are exactly those of that shape. |
| EventQueue.NothingLostButSuperseded | model/usb/device/f_generic.c:480-516 | Over any adds and reads: delivered then queued is a subsequence of added, and an event is missing exactly when a superseding one was added before its delivery. |
| EventQueue.QueueFollowsHistory | model/usb/device/f_generic.c:2611-2676 | The queue the code keeps is the one of that history, and stays within four slots. |
| EventQueue.SetupsCarryTheirPacket | model/usb/device/f_generic.c:480-516 | Over any history of setups, other events and reads: a read hands out the first events of the queue in order, a setup with the packet that arrived last and every other event with an all-zero one. |
| EventQueue.Events.Compact | model/usb/device/f_generic.c:2658-2667 | The in-place loop is an order-preserving filter. |
| EventQueue.Events.EventAdd | model/usb/device/f_generic.c:2611-2676 | The new queue, and that a pending setup is cancelled. |
| EventQueue.Events.SetupArrived | model/usb/device/f_generic.c:3344-3348 | The packet is kept and a setup event queued. |
| EventQueue.Events.ReadEvents | model/usb/device/f_generic.c:480-516 | The first n events are delivered in order, a setup with the packet kept and the others with zeros, the rest stay in order, and a delivered setup becomes pending; queue and deliveries follow the history. |
| EventQueue.Events.ClearCancelled | model/usb/device/f_generic.c:67-71 | Returns the old state and clears a cancelled one. |
| Ep0Handshake.TransitionsLegal | model/usb/device/u_generic.h:235-247 | In every run PENDING is entered only from NO_SETUP, by delivering a setup, and CANCELLED only from PENDING. |
| Ep0Handshake.RechecksAreSound | model/usb/device/f_generic.c:408-475 | In all runs every reply the locked re-check lets through is, at that moment, for the setup last delivered, no longer than it asks for and with no event since, if and only if the completion handler's store lands before the woken thread goes on. Not about the queueing that follows. |
| Ep0Handshake.RepliesAreExact | model/usb/device/f_generic.c:408-475 | In every run, whenever that store lands: the re-check cancels the reply exactly when an event and no store came since the first check, and a reply it lets through is wrong exactly when both came. |
| Ep0Handshake.QueuesAreExact | model/usb/device/f_generic.c:289-324 | With a prompt store, in every run: a reply is queued for the setup last delivered, unanswered and with no event since, if and only if setup_state is still PENDING; otherwise it is CANCELLED. |
| Ep0Handshake.ReplyInTime | model/usb/device/f_generic.c:289-324 | That is so exactly when no event was added between the locked re-check and the queueing. |
| Ep0Handshake.ReplyHitsUndelivered | model/usb/device/f_generic.c:289-324 | A run with a prompt store in which a reply is queued for a request that was never delivered, and the call reports success. |
| Ep0Handshake.ChecksAreExact | model/usb/device/f_generic.c:408-475 | With that: a reply goes on exactly when a delivered setup is unanswered and no event came since; otherwise -EIDRM or -ESRCH, as stated. Reads with nothing to answer are in ReadsAreExact. |
| Ep0Handshake.ReadsAreExact | model/usb/device/f_generic.c:553-574 | In every run, a read with no setup to answer: refused exactly below 12 bytes; with an empty queue, -EAGAIN exactly for a nonblocking call and sleep for a blocking one; else the first min(len / 12, queued) events, with their packets, the rest staying in order. |
| Ep0Handshake.WakesAreExact | model/usb/device/f_generic.c:566-574 | In every run, a sleeper that wakes is given the events that fit its buffer. |
| Ep0Handshake.ResultsMean | model/usb/device/f_generic.c:340-610 | Each result a call can return belongs to one way out of it. |
| Ep0Handshake.GivenFollowsHistory | model/usb/device/f_generic.c:480-516 | In every run, all events user space was given, the queue and the packet are those of the history of setups, events and reads, and the setup called delivered is the last one given. |
| Ep0Handshake.LateStore | model/usb/device/f_generic.c:263-270 | A run in which a reply goes out for a request that was never delivered. |
| Ep0Handshake.StallsAreExact | model/usb/device/f_generic.c:326-337 | With a prompt store, in every run: a stall hits the setup last delivered, unanswered and with no event since, if and only if setup_state is still PENDING; otherwise it is CANCELLED. |
| Ep0Handshake.StallInTime | model/usb/device/f_generic.c:408-430 | That is so exactly when no event was added between the locked check that decided on the stall and the stall. |
| Ep0Handshake.StallHitsUndelivered | model/usb/device/f_generic.c:326-337 | A run in which a stall hits a request that was never delivered. |
| EpFiles.SetAltMeans | model/usb/device/f_generic.c:3250-3287 | What set_alt opens and shuts, also when an enable fails part way, and when it reports ENABLE. |
| EpFiles.SetAltFails | model/usb/device/f_generic.c:1882-1904 | The result is the error of the first endpoint refused, its configuration's before its enable's. |
| EpFiles.DisableMeans | model/usb/device/f_generic.c:3262-3292 | What disabling does to the files, the active function, the state and the events, and what it returns, in every state. |
| EpFiles.UnbindMeans | model/usb/device/f_generic.c:3534-3575 | Exactly the files of the unbound function are shut, and the event added. |
| EpFiles.FilesConsistent | model/usb/device/f_generic.c:1851-1910 | Over any run and any number of functions: open files are a prefix, file i stands for entry i of the active function, and none for a released array. |
| EpFiles.FfsData.EpsDisable | model/usb/device/f_generic.c:1851-1871 | Every file is shut. |
| EpFiles.FfsData.EpsEnable | model/usb/device/f_generic.c:1873-1910 | Files open up to the first endpoint refused, whose error is returned. |
| EpFiles.FfsData.SetAlternate | model/usb/device/f_generic.c:3250-3287 | The new state and result. |
| EpFiles.FfsData.DisableFunction | model/usb/device/f_generic.c:3289-3292 | The active function, whichever it is, is shut. |
| EpFiles.FfsData.UnbindFunction | model/usb/device/f_generic.c:3534-3575 | The function's array is released, after its files are shut if it was active. |
| Kevent.EveryAnswerCounted | manager/src/hdf_kevent.c:122-172 | In every reachable state: clientCount is the number of clients, waitCount is what is missing modulo 2^32, signalled exactly from the n-th answer on, and a send that did not time out had n answers. |
| Kevent.OnlyOwnAnswers | manager/src/hdf_kevent.c:286-305 | A wait counts exactly the answers with its own token since its event went out. |
| Kevent.SnapshotIsClients | manager/src/hdf_kevent.c:144-155 | In every run, what a wait counts down from is the number of clients there were when its event went out, in 32 bits. |
| Kevent.SignalledByAll | manager/src/hdf_kevent.c:122-172 | In every run, of a wait whose event went out to n clients and that had k answers since: its count is n - k modulo 2^32, and it is signalled exactly when k >= n; with n = 0 only when the count has wrapped. |
| Kevent.SendsAnswered | manager/src/hdf_kevent.c:156-172 | A send that ends without a timeout had at least as many answers as clients its event went to. |
| Kevent.AnsweredOnList | manager/src/hdf_kevent.c:295-303 | The loop over the wait list is one answer to one wait, or nothing. |
| Kevent.KeventModule.Open | manager/src/hdf_kevent.c:330-354 | The client joins the list and is counted. |
| Kevent.KeventModule.Close | manager/src/hdf_kevent.c:356-379 | The client leaves the list and the count; the others stay in order. |
| Kevent.KeventModule.Complete | manager/src/hdf_kevent.c:286-305 | The loop's effect on the waits. |
| Kevent.KeventModule.ListWait | manager/src/hdf_kevent.c:139-142 | The wait is on the list, not yet told. |
| Kevent.KeventModule.CountClients | manager/src/hdf_kevent.c:144-147 | The wait counts down from the number of clients on the list, and nothing else of it, and no other wait, changes. |
| Kevent.KeventModule.RemoveWait | manager/src/hdf_kevent.c:164-167 | The wait, and no other, is off the list. |
| Vla.Layout | model/usb/device/u_f.h:19-42 | For any items the computed regions are aligned, disjoint, ordered and inside the group if and only if the group fits a size_t; offsets are then the least possible and the first is 0. |
| Vla.MaskedUpIs | model/usb/device/u_f.h:24-27 | The mask arithmetic rounds up to the alignment, unless the sum wraps. |
| Vla.Group.AddItem | model/usb/device/u_f.h:22-30 | The offset and the running end of the group. |
| Bits.MaskRoundsDown | model/usb/device/u_f.h:25 | Masking with ~(2^k - 1) rounds down to a multiple of 2^k. |
| Bits.PowerTest | osal/src/osal_mem.c:122 | The usual test accepts powers of two and nothing else. |
| OsalMem.AlignValidMeans | osal/src/osal_mem.c:122-126 | The arguments accepted are a power of two of at least a pointer's size and a total that fits. |
| OsalMem.AlignedRoundTrip | osal/src/osal_mem.c:112-165 | The pointer is aligned and its bytes and header lie in the block; freeing finds the block, whatever memory held, if and only if the offset fits 32 bits. |
| OsalMem.SmallAlignments | osal/src/osal_mem.c:134-139 | Alignments up to 2^32 always leave such an offset. |
| OsalMem.FreeFindsBlock | osal/src/osal_mem.c:46-165 | Over any run of allocations, owners' writes and frees: headers and bytes stay in their blocks, blocks stay apart, a block is kmalloc's exactly up to 128 KiB, and freeing a pointer whose offset fits 32 bits hands back the right base to the right allocator. |
| OsalMem.Memory.Alloc | osal/src/osal_mem.c:66-92 | The pointer behind the header, or NULL. |
| OsalMem.Memory.AllocAlign | osal/src/osal_mem.c:112-142 | The aligned pointer with its header in front, or NULL. |
| OsalMem.Memory.Release | osal/src/osal_mem.c:145-165 | What is freed, and how, by the header in front of the address; NULL is not freed. |
| LogFormat.ReplaceCounts | osal/src/osal_deal_log_format.c:27-69 | The result is shorter by 9 for each {private} and 8 for each {public}, with as many percent signs. |
| LogFormat.UnchangedWithoutMarkers | osal/src/osal_deal_log_format.c:41-62 | Exactly the formats without a marker are left unchanged. |
| LogFormat.ZeroedGetsReplaced | osal/include/hdf_log_adapter.h:34-39 | A zeroed destination gets the replaced format. |
| LogFormat.ReplacedMayHoldMarkers | osal/src/osal_deal_log_format.c:41-62 | Replacing twice is not replacing once. |
| LogFormat.DealFormat | osal/src/osal_deal_log_format.c:27-69 | Exactly when it succeeds, on any destination, and the string it leaves. |
| PhyTiming.NestedIsCeiling | platform/mipi_dsi/mipi_tx_hi35xx.c:213-217 | As long as no 32-bit word wraps, the nested expression is the total time rounded up to periods, less one, kept in a byte. |
| PhyTiming.ClkValue | platform/mipi_dsi/mipi_tx_hi35xx.c:208-239 | The clock setting while it fits a byte, and that the error value is chosen exactly below 77. |
| PhyTiming.ClkOverflows | platform/mipi_dsi/mipi_tx_hi35xx.c:208-239 | Beyond a byte, up to rates whose comparison would wrap, the error value is chosen exactly when what is left of the ceiling is 0, and the bounds hold exactly up to 29371. |
| PhyTiming.ClkPrepareMet | platform/mipi_dsi/mipi_tx_hi35xx.c:208-239 | For every 32-bit rate: the clock bounds hold if and only if the rate is 77 to 29371. |
| PhyTiming.DataValue | platform/mipi_dsi/mipi_tx_hi35xx.c:241-274 | The data setting while it fits a byte, never the error value. |
| PhyTiming.DataPrepareMet | platform/mipi_dsi/mipi_tx_hi35xx.c:241-274 | For every 32-bit rate: the data bounds hold if and only if the rate is 22 to 80 or 106 to 22844. |
| PhyTiming.PllDivides | platform/mipi_dsi/mipi_tx_hi35xx.c:106-125 | The factor chosen is a power of two that brings a rate of 47 to 1500 Mbit/s to between 751 and 1504. |
| PhyTiming.PllFactor | platform/mipi_dsi/mipi_tx_hi35xx.c:106-161 | The two registers stand for the least sufficient multiple of the reference clock exactly up to 13824 Mbit/s. |
| MipiFifo.ViewsAgree | platform/mipi_dsi/mipi_tx_reg.h:327-341 | The register's word and its byte fields determine each other. |
| MipiFifo.PackingRoundTrip | platform/mipi_dsi/mipi_tx_hi35xx.c:660-697 | n bytes become ceil(n / 4) words, and reading n bytes back gives them, whatever stale bytes fill the last word. |
| MipiFifo.Fifo.SetPayloadData | platform/mipi_dsi/mipi_tx_hi35xx.c:660-697 | Exactly the words of the payload are written, up to the first wait that times out. |
| MipiFifo.Fifo.GetReadFifoData | platform/mipi_dsi/mipi_tx_hi35xx.c:843-879 | Exactly the bytes of the next words are read, or too few words were there. |
| WlanQueue.SlotIsModulo | model/network/wifi/platform/src/hdf_wlan_queue.c:90-94 | Wrapping an index is arithmetic modulo the capacity. |
| WlanQueue.PushAdds | model/network/wifi/platform/src/hdf_wlan_queue.c:104-136 | On the ring's array and indices, a push appends the element, or changes nothing when the ring is full, across the wrap-around too. |
| WlanQueue.PopTakes | model/network/wifi/platform/src/hdf_wlan_queue.c:74-102 | A pop takes the oldest element and leaves the others in order. |
| WlanQueue.Create | model/network/wifi/platform/src/hdf_wlan_queue.c:37-57 | An empty queue of the capacity asked for; NULL above the limit, without memory or without a mutex. |
| WlanQueue.Queue.Push | model/network/wifi/platform/src/hdf_wlan_queue.c:104-136 | The ring's new array and indices; what is returned is the unlock's result, also on a full queue. |
| WlanQueue.Queue.Pop | model/network/wifi/platform/src/hdf_wlan_queue.c:74-102 | The ring's new indices and the element taken, or NULL. |
| WlanQueue.FirstInFirstOut | model/network/wifi/platform/src/hdf_wlan_queue.c:74-136 | Over any run of the ring, failed locks included: elements come out in the order accepted, none is lost, never more than the capacity wait, and the tail stays (head + count) mod capacity; capacity 0 included. |

## Left out

- The ioctl, mmap and asynchronous paths of ep0 and the endpoint files: their ownership rules depend on kernel code that is not part of this model.
- The device-state machine around ep0 (reading descriptors, closing): `Ep0Handshake` models the active state, with one user thread, and a locked stretch as one step; the unlocked read and write inside `__ffs_event_add` are not split.
- `usb_ep_dequeue` is taken as finishing its completion before it returns.
- The fix-up loops at the end of a bind (model/usb/device/f_generic.c:3142-3215): they write interface numbers and a string index into association and communication-class descriptors, whatever length these have, and read them through pointers to the first two full-speed interfaces with endpoints, which are NULL when there are none. Everything proved about a bind is about the state before them.
- FuncBind.FfsFunction.Bind: a bind after one that failed is not covered. The failed one leaves its lists set (model/usb/device/f_generic.c:3066-3104), and since a descriptor is filed in the list of the highest speed that has one (lines 2717-2728), a retry files full-speed descriptors in a stale list.
- BindTheorem.RefusedOutcome: when the record or feature read behind the first refused copy is itself acceptable there, the walk goes on; what it reads after that is given by `OsBind.RunFeatures` and no longer put in terms of the section's bytes.
- The reserved `i` index of `usb_interface_id`: an answer is given per user interface, when that interface is first met.
- DescMessage.AcceptedIsMessage: a descriptor whose bLength is 0 or 1 overlaps what follows it and has no encoding of its own; validation accepts it, which `DescParser.FfsData.GotDescs` covers on the bytes.
- OsBind.StepOs: the OS regions and the table are values in one field, so aliasing between carved regions is not modelled; `BindChunk.ChunkLaidOut` shows they are disjoint.
- FuncBind.FfsFunction.Allocate: the carved arrays are separate arrays and sequences of their carved lengths; that they do not meet in the one block is `BindChunk.ChunkLaidOut`.
- DescParser.FfsData.GotDescs: the walk's `int` results are unbounded, since a copied user buffer never reaches 2^31 bytes; a second attempt on the same ffs_data, which keeps counters of the first, is not covered.
- Several functions sharing one ffs_data at bind time: `FuncBind` binds one, `EpFiles` covers any number.
- StringTables.FfsStrings.GotStrings: `kmalloc` is taken never to give more than 128 MiB; the string ids are left unset, as in the source.
- Kevent: a client's answer is only its token; that an address can be given to a later wait while an old answer is still on its way is allowed, and such an answer counts for the later wait.
- Kevent: sending without waiting, and the contents of the event, which do not touch the counts.
- LogFormat.DealFormat: the bounds-checked string functions of the C library are given by their contract, and what a failed call leaves in the destination is not said.
- MipiFifo.Fifo: waiting is modelled as room in, or words on, a FIFO; register programming, delays and error interrupts are not part of this model.
- PhyTiming: settings other than the PLL factor and the two prepare times.
- OsalMem.Memory: what `kmalloc` and `vmalloc` return is a parameter; `OsalMemCalloc` only zeroes.
- WlanQueue.Queue: destruction, and NULL arguments.
- The platform adapters (gpio, i2c, spi, uart and the like), the network buffers, the PnP notifier and the thin OSAL wrappers: they pass calls on.
