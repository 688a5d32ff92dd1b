# loctrkd: deframers, registry, codecs

A model in Dafny of the parts of loctrkd that have to be right on every stream and in every run, and proofs about it.
`dafny verify dfyconfig.toml` checks the whole project.

**Two stream deframers.** `zx303proto.Stream` cuts `xx ... CR LF` frames whose length byte only bounds the end from
below; `beesure.Stream` cuts frames whose header declares their length and caches that length between calls. Both are
classes with the source's loops. Each loop is proved equal to a stateless reference that deframes a whole byte string in
one pass (`Deframing.Deframe`). What the two share is proved once, for any way of cutting that is *sound* (takes a nonempty
prefix) and *stable* (later bytes never change a cut): segmentation independence, conservation, whole-stream transparency
and the bound on the buffer.

- For zx303 segmentation independence is exact. For beesure it is exact up to one thing: a header of declared length 0 with a
  foreign imei repeats its notice if its last byte comes in a later segment. `BeesureFraming.SegmentationExact` says when
  (if and only if `Restatements` is not 0) and that nothing else differs, `RestatesOnEmptyFrame` gives the input, and
  `NoticeRepeatedOnce` says that, segments never being empty, a notice is repeated at most once.
- zx303 framing loses packets. `PacketTransparency`, `StreamTransparency` and `RunTransparency` say exactly which: those
  with a CR LF at or after the offset that the length byte points to. The default layout (`DefaultTransparency`) leaves
  only the last three bytes; the report of access points and cells (`ReportOverTheWire`) much more. A payload that ends in
  CR LF is the plainest example (`TrailingDelimiterLost`): the packet arrives without these two bytes.
- beesure framing is transparent for all payloads. A text payload that needs more than four length digits cannot be framed
  at all (`EnframeExact`).
- After an overflow zx303 is as good as new: every run, with overflows or without, is a run of stretches deframed in one
  pass each (`OverflowResets`). beesure keeps the cached length and stays in step if and only if no frame was awaited
  (`SyncKept`, and `RunWellFormed` over runs). Otherwise it takes the next bytes for the frame that it still awaits,
  in whatever segments they come (`OverflowDesyncs`); frames of more than 61462 bytes in reads of up to 4096 get it there
  (`DesyncReached`).
- The bound that excludes overflow is sharp: below it no conforming traffic overflows, above it some does (`BoundExact`, for
  either protocol). With the collector's reads of up to 4096 bytes, beesure frames of up to 61462 bytes are safe
  (`LongestSafeFrame`); for zx303, whose buffer is 4096 bytes, a full read is dropped whenever anything waits
  (`FullReadDropped`).
- What counts as a header or a frame, what is said about what, and what is written is also stated byte for byte, without
  the functions the model is made of (`BeesureBytes`, `Zx303Bytes`, `Zx303ReportBytes`, and the lemmas named
  `...SpelledOut` elsewhere).

**The collector.** The registry with its two maps, the connections and the poll loop are classes (`Collector`). Each method
is proved equal to a function on registry values (`Registry`, `RegistryRuns`, `Responses`, `Iteration`, `Rounds`); what
holds in every reachable state, for any interleaving of accepts, arrivals, takeovers, goodbyes and stops, is proved about
those. A registry value also holds the log of logins and stops and a record of every connection, both kept up to date
by the operations as ghost state; the log gives "the most recent login that has not been stopped since" a meaning of its own (`LoggedInNow`).
`InterleavedEndToEnd` follows one connection through all that: what reading it returns is what it would have returned alone.
`Rounds` says what the events of a round come to, and `RoundsAreRuns` that the loop gets nowhere that single steps cannot.
`Recognition` says which segments a protocol is recognised by and which packets name a terminal or say goodbye.
The environment's part is `FreshAccepts`: descriptors accepted in a round differ from all that were served when it began,
because the listening socket is polled first. `PollExact` shows that this is just what the poll set needs.

A response does not always arrive, and it can end the program. Framing a response for a beesure terminal asserts that it
starts with a header (loctrkd/beesure.py:137); nothing between there and the end of `runserver` catches the failure, and
the command line tool sends whatever command it is given to whatever imei it is given (loctrkd/__main__.py:41-45).
`ForeignCommandFails` gives such a response; `LastLoginWins` and `DeliveriesReachOwners` say exactly which responses are
written, which fail and which are ignored. A zx303 response without a protocol byte is written and then fails when its
protocol is looked up for the broadcast (loctrkd/collector.py:258). The model leaves the loop at that point, as the source
does: `RoundSurvives` says exactly when, and `OnlyBusCanStop` that it is never the collector's own answers that cause it.

**Codecs.** The five-pass unescaping of voice data, the report of access points and cells, the zx303 login, and the bus
messages with their topics. Round trips are stated as equivalences: which values come back unchanged, and no others.

**Two small cores.** The line reader over chunked decompression, and the signal-weighted average of cell positions over reals,
characterised as the one point where the inverse signals balance (`LocationBalances`).

Text that is ASCII on the wire (imeis, names, hexadecimal) is modelled by its bytes. A call that raises in the source
yields `None` or an error constructor. Where the code and its comments differ, the code is followed: the comment
at loctrkd/beesure.py:51 takes 65536 + 21 for the largest frame, four hexadecimal digits allow 65535 + 21.

## Model

| member | source | states |
|---|---|---|
| Deframing.SegmentationIndependence | loctrkd/zx303proto.py:63-109 | for any sound and stable cut, feeding segments one by one gives the spans and leftover of one pass over all bytes |
| Deframing.Conservation | loctrkd/zx303proto.py:75-109 | the spans and the leftover, joined in order, are the input; every span takes at least a byte |
| Deframing.Settled | loctrkd/zx303proto.py:75-78 | the leftover of a pass holds nothing that is ready to be cut |
| Deframing.AtomicPieces | loctrkd/beesure.py:112-123 | a stream of pieces each cut off whole is returned piece by piece with nothing left over |
| Deframing.Residue | loctrkd/beesure.py:112-113 | at any moment of such a stream the leftover is a proper prefix of one piece |
| Deframing.ConformingFits | loctrkd/beesure.py:86-90 | with pieces of at most F and segments of at most S bytes, F-1+S within the limit, the buffer never exceeds it |
| Deframing.TooNarrow | loctrkd/beesure.py:86-90 | beyond that bound copies of one piece, cut into segments of at most S bytes, do exceed the limit |
| Zx303.CutStable | loctrkd/zx303proto.py:76-102 | both searches, and so the cut they decide, are unchanged by bytes that arrive later |
| Zx303.FindFrameEnd | loctrkd/zx303proto.py:87-100 | hopping over delimiters ends at the least CR LF not below the length byte, or at none |
| Zx303.Stream.Recv | loctrkd/zx303proto.py:63-109 | the messages and new buffer are those of one pass over buffer and segment, or the overflow notice and an empty buffer |
| Zx303.Stream.Close | loctrkd/zx303proto.py:111-114 | returns what is unconsumed and empties the buffer |
| Zx303Framing.SegmentationExact | loctrkd/zx303proto.py:63-109 | for every segmentation without overflow all messages, in order, and the buffer are those of one pass over the whole stream |
| Zx303Framing.RunConserves | loctrkd/zx303proto.py:75-114 | over a run the spans behind the messages plus the buffer are exactly the bytes received |
| Zx303Framing.OverflowResets | loctrkd/zx303proto.py:63-109 | any run whatsoever gives the messages of one pass over each stretch between overflows, with one notice for each overflow |
| Zx303Framing.FrameShape | loctrkd/zx303proto.py:84-104 | a cut frame is `xx`, packet, CR LF, ends late enough, and at the first delimiter that is |
| Zx303Framing.MessagesWellFormed | loctrkd/zx303proto.py:95-108 | packets have at least two bytes, too-short rejections exactly one, skip notices count and show at most 64 bytes |
| Zx303Framing.FramedCut | loctrkd/zx303proto.py:87-104 | whatever follows, an enframed packet is cut off whole iff no CR LF of its own is late enough and its end is |
| Zx303Framing.SurvivesDefaultLayout | loctrkd/zx303proto.py:301-305 | for the default length byte this means no CR LF within the last three bytes |
| Zx303Framing.PacketTransparency | loctrkd/zx303proto.py:117-118 | enframing and receiving returns the packet, with an empty buffer, iff it survives |
| Zx303Framing.DefaultTransparency | loctrkd/zx303proto.py:301-305 | a packet of the default layout comes back iff no CR LF lies within its last three bytes |
| Zx303Framing.StreamTransparency | loctrkd/zx303proto.py:87-108 | a sequence of enframed packets comes back whole, without diagnostics, iff each of them survives |
| Zx303Framing.RunTransparency | loctrkd/zx303proto.py:63-109 | the same however the sequence is cut into segments, without overflow |
| Zx303Framing.ConformingTraffic | loctrkd/zx303proto.py:70-73 | surviving packets and segments of bounded size never overflow and all come back |
| Zx303Framing.BoundExact | loctrkd/zx303proto.py:56-73 | no conforming traffic with frames up to F and segments up to S bytes overflows iff F-1+S is within the buffer limit |
| Zx303Framing.TrailingDelimiterLost | loctrkd/zx303proto.py:87-108 | a default packet whose payload ends in CR LF arrives without these two bytes, which stay in the buffer |
| Zx303Bytes.CutSpelledOut | loctrkd/zx303proto.py:75-102 | in byte values: what stands before the first `xx` is cut off, and from an `xx` in front on, given six bytes, all up to the first CR LF not below the third byte |
| Zx303Bytes.SpanReported | loctrkd/zx303proto.py:79-108 | skipped bytes are reported by their number and first 64, a frame without two bytes at either end, as too short if fewer than two are left |
| Zx303Bytes.EnframeSpelledOut | loctrkd/zx303proto.py:117-118 | `xx` in front, CR LF behind |
| Zx303Bytes.DroppedBeyond | loctrkd/zx303proto.py:56-73 | a segment is dropped, with what waits, iff the two come to more than 4096 bytes |
| Zx303Bytes.FullReadDropped | loctrkd/collector.py:26-54 | a read of 4096 bytes is dropped iff anything waits |
| Zx303Bytes.WidestSafeRead | loctrkd/zx303proto.py:56-73 | frames up to F and reads up to S bytes are safe iff F + S is at most 4097 |
| Beesure.FindsFirstHeader | loctrkd/beesure.py:52-71 | the search returns the least offset at which the twenty header bytes match, or -1 |
| BeesureBytes.HeaderSpelledOut | loctrkd/beesure.py:52 | a header is, in byte ranges: `[`, two letters, digits or underscores, `*`, ten digits, `*`, four hexadecimal digits of either case, `*` |
| BeesureBytes.LengthSpelledOut | loctrkd/beesure.py:64-67 | the declared length is the value of its four digits |
| Beesure.FrameStartMeaning | loctrkd/beesure.py:55-71 | offset, imei and length are those of the first header; a negative offset means there is none |
| Beesure.HeaderExtends | loctrkd/beesure.py:52-71 | a header, its imei and its length do not depend on what follows |
| Beesure.CutStable | loctrkd/beesure.py:93-123 | the stateless step is unchanged by bytes that arrive later |
| Beesure.FrameShape | loctrkd/beesure.py:112-122 | a cut frame is a header, the bytes it declares and one more |
| BeesureBytes.CutSpelledOut | loctrkd/beesure.py:92-123 | what is cut off, and when nothing is, by where headers stand and what the first one declares |
| BeesureBytes.SpanReported | loctrkd/beesure.py:97-121 | skipped bytes are reported by their number and first 64, a foreign imei by both imeis, a frame as a packet iff it ends in `]` and else by its last offset |
| BeesureBytes.DroppedBeyond | loctrkd/beesure.py:86-90 | a segment is dropped iff it and what waits come to more than 65557 bytes; imei and cached length stay |
| Beesure.DeliverIsReference | loctrkd/beesure.py:92-124 | latching the imei on the way gives the messages and latch of the closed form over the whole stream |
| Beesure.Stream.SeeFrameStart | loctrkd/beesure.py:93-111 | the first half of a round skips, latches, notices and caches so that what the loop will deliver is unchanged |
| Beesure.Stream.TakeFrame | loctrkd/beesure.py:112-123 | the second half hands out or rejects a complete frame so that what the loop will deliver is unchanged |
| Beesure.Stream.Recv | loctrkd/beesure.py:80-124 | the messages and all three fields are those of the reference step, also when the cached length is stale |
| Beesure.Stream.Close | loctrkd/beesure.py:126-131 | returns what is unconsumed and resets all three fields |
| BeesureFraming.SyncKept | loctrkd/beesure.py:86-90 | an arrival keeps the cached length describing the front of the buffer iff it does not overflow or no frame is awaited |
| BeesureFraming.CallExact | loctrkd/beesure.py:80-124 | one arrival extends the whole-history reference by its messages, save for the notice it restates |
| BeesureFraming.SegmentationExact | loctrkd/beesure.py:80-124 | over any segmentation without overflow state, packets and messages up to restated notices equal the reference; all messages are equal iff nothing is restated |
| BeesureNotices.RestatesOnEmptyFrame | loctrkd/beesure.py:93-113 | a foreign header of length 0 gets its notice twice when its last byte comes in a segment of its own |
| BeesureNotices.RestatedThenDone | loctrkd/beesure.py:93-124 | the first byte of the next segment completes that frame, whose fate follows the restated notice, and the rest is deframed as usual |
| BeesureNotices.NoticeRepeatedOnce | loctrkd/beesure.py:80-124 | over any nonempty segments without overflow there are never three mismatch notices in a row |
| BeesureFraming.RunConserves | loctrkd/beesure.py:92-131 | the packets are the frames ending in a bracket among spans that, with the buffer, are exactly the bytes received |
| BeesureFraming.MessagesWellFormed | loctrkd/beesure.py:112-123 | while the cached length is right every packet starts with a header, ends in a bracket and has declared length plus 21 bytes |
| BeesureFraming.RunWellFormed | loctrkd/beesure.py:86-123 | the same for all messages of a run, overflow notices aside, as long as no overflow comes in mid-frame |
| BeesureFraming.PacketIdentifies | loctrkd/beesure.py:617-621 | every such packet identifies its sender by ten digits |
| BeesureOverflow.OverflowDesyncs | loctrkd/beesure.py:86-123 | after an overflow in mid-frame the awaited number of any bytes, in any segments, is taken for the frame, and handed out if it ends in a bracket |
| BeesureOverflow.DesyncReached | loctrkd/beesure.py:86-123 | a fresh deframer gets there with all but the last byte of a well-formed frame and one segment that is too much |
| BeesureOverflow.DataLenBound | loctrkd/beesure.py:52-70 | no header declares more than 65535 bytes |
| BeesureTransparency.HexRoundTrip | loctrkd/beesure.py:138 | the length text reads back as the length, and has four digits iff it is below 65536 |
| BeesureTransparency.PacketImei | loctrkd/beesure.py:617-621 | an identified imei is ten digits, for any packet |
| BeesureTransparency.BuiltFrameCut | loctrkd/beesure.py:52-71 | a built frame is cut off whole whatever its payload holds, and reported as a packet |
| BeesureTransparency.EnframeExact | loctrkd/beesure.py:134-138 | a built response is framed with the terminal's imei iff its payload has fewer than 65536 bytes |
| BeesureTransparency.EnframeTooLong | loctrkd/beesure.py:305-309 | a longer response fails the assertion on its header whatever the imei |
| BeesureTransparency.ReferenceTransparency | loctrkd/beesure.py:92-124 | frames of one imei come back one by one with no diagnostics, the imei latched and nothing left over |
| BeesureTransparency.RunTransparency | loctrkd/beesure.py:80-124 | the same, message for message, for every segmentation without overflow |
| BeesureBytes.EveryVendor | loctrkd/beesure.py:52-124 | the same for frames of every vendor of two letters, digits or underscores and every imei of ten digits |
| BeesureBytes.FrameSpelledOut | loctrkd/beesure.py:305-309 | a built frame byte for byte, its length in upper-case digits |
| BeesureBytes.PackedSpelledOut | loctrkd/beesure.py:305-309 | a response starts with `[LT*0000000000*` until its imei is filled in |
| BeesureTransparency.ConformingTraffic | loctrkd/beesure.py:86-90 | arbitrary payloads in frames and segments of bounded size never overflow and all come back |
| BeesureOverflow.BoundExact | loctrkd/beesure.py:51-90 | no conforming traffic with frames up to F and segments up to S bytes overflows iff F-1+S is within the buffer limit |
| BeesureBytes.LongestSafeFrame | loctrkd/beesure.py:51-90 | with reads of up to 4096 bytes frames can never overflow the buffer iff none is longer than 61462 bytes |
| BeesureVoice.DecodeIsOnePass | loctrkd/beesure.py:537-544 | on every byte string the five replacing passes equal one left-to-right unescaping |
| BeesureVoice.DecodeSpelledOut | loctrkd/beesure.py:535-545 | in byte values, from the left: 7D before 2A, 2C, 5B, 5D or 7D is dropped, everything else stays |
| BeesureVoice.EscapeSpelledOut | loctrkd/beesure.py:535-545 | the escaper puts 7D before exactly these five |
| BeesureVoice.AddPass | loctrkd/beesure.py:539-542 | each further pass extends simultaneous unescaping by one more byte |
| BeesureVoice.LastPass | loctrkd/beesure.py:543 | the pass for the escape byte itself completes the single pass although it comes last |
| BeesureVoice.DecodeUndoesEscape | loctrkd/beesure.py:535-544 | decoding escaped data gives the data |
| BeesureVoice.EscapeUndoesDecode | loctrkd/beesure.py:535-544 | escaping decoded text gives the text iff it was properly escaped |
| Zx303Wifi.FormatMacReads | loctrkd/zx303proto.py:470-489 | the decoder's text of an address reads back as its bytes |
| Zx303Wifi.ApCodec | loctrkd/zx303proto.py:467-490 | seven-byte records and access points correspond one to one, up to the spelling of the address |
| Zx303Wifi.CellCodec | loctrkd/zx303proto.py:475-499 | five-byte records and cells correspond one to one |
| Zx303Wifi.EncodesExactlyInRange | loctrkd/zx303proto.py:482-502 | a report can be encoded iff every field fits its format and every address is hexadecimal |
| Zx303Wifi.DecodeAps | loctrkd/zx303proto.py:466-471 | the loop reads every access point, or fails iff the bytes run out |
| Zx303Wifi.DecodeCells | loctrkd/zx303proto.py:472-480 | the loop reads every announced cell, or fails iff the bytes run out |
| Zx303Wifi.Decode | loctrkd/zx303proto.py:458-480 | the result is the report the bytes announce, or failure iff they are incomplete or the date does not read |
| Zx303Wifi.DecodeUndoesEncode | loctrkd/zx303proto.py:458-502 | decoding an encoded report with its length byte gives it back, addresses in the decoder's spelling |
| Zx303Wifi.CanonicalExact | loctrkd/zx303proto.py:470 | 17 characters, a colon at every third place and upper-case digits elsewhere, are exactly what the decoder writes for an address |
| Zx303Wifi.RoundTripExact | loctrkd/zx303proto.py:458-502 | the report comes back identical iff every address is spelled like that |
| Zx303Wifi.EncodeUndoesDecode | loctrkd/zx303proto.py:458-502 | re-encoding gives back the bytes read, and the whole payload iff it has exactly 6+7L+4+5N bytes |
| Zx303ReportBytes.ReadableSpelledOut | loctrkd/zx303proto.py:458-480 | a payload can be read iff it has six bytes of date that are zero or a date, seven for each access point, four, and five for each cell announced there |
| Zx303ReportBytes.ReportSpelledOut | loctrkd/zx303proto.py:458-480 | every field of what is read, by its offset, with numbers high byte first and signals negated |
| Zx303ReportBytes.MacSpelledOut | loctrkd/zx303proto.py:470 | an address in its text: two upper-case digits for each byte, and colons between |
| Zx303ReportBytes.MacBytesSpelledOut | loctrkd/zx303proto.py:489 | an address is written as the first six bytes of its text without colons, filled up with zeros |
| Zx303ReportBytes.PackedSpelledOut | loctrkd/zx303proto.py:301-305 | the length byte of a report is its number of access points, and more than 255 cannot be packed |
| Zx303Wifi.ReportOverTheWire | loctrkd/zx303proto.py:301-305 | a packed report survives the framing iff no CR LF stands at or after the offset its access-point count points to |
| Protocols.LoginIdentifies | loctrkd/zx303proto.py:312-325 | the imei of a login packet is recovered iff it is sixteen lower-case hexadecimal digits |
| HexText.FromHexOfDigits | loctrkd/zx303proto.py:323 | digits alone are read iff they are even in number, and then two to a byte |
| HexText.FromHexSpaces | loctrkd/zx303proto.py:323 | white space in front changes nothing; nothing but digits and white space is ever read |
| Recognition.ZxRecognised | loctrkd/zx303proto.py:859-865 | a segment is taken for zx303 iff `xx` stands in it with four more bytes behind |
| Recognition.BsRecognised | loctrkd/beesure.py:637-638 | a segment is taken for beesure iff a header stands in it |
| Recognition.FirstRecogniser | loctrkd/common.py:60-64 | the protocol chosen is the first configured one that recognises the segment |
| Recognition.NoRecogniser | loctrkd/common.py:60-64 | none is chosen iff none recognises it |
| Recognition.ZxIdentifies | loctrkd/zx303proto.py:838-843 | a packet identifies its sender iff its protocol byte is 01 and it has eleven bytes; the imei is the lower-case text that reads back as its bytes 2 to 9 |
| Recognition.BsIdentifies | loctrkd/beesure.py:617-621 | a packet identifies its sender iff a header stands at its front; the imei is its bytes 4 to 13 |
| Recognition.GoodbyeExact | loctrkd/zx303proto.py:846-847 | exactly the zx303 packets with protocol byte 14 (hexadecimal) say goodbye |
| Recognition.LoginSpelledOut | loctrkd/zx303proto.py:322-325 | a login has eleven bytes, eight of them from its imei, cut off or filled up with zeros |
| Recognition.FirstZxPacket | loctrkd/collector.py:70-94 | with zx303 configured first, a first segment of one framed packet is read as that packet, labelled if it is a login, iff the packet survives the framing |
| Recognition.FirstBsPacket | loctrkd/collector.py:70-94 | with beesure configured first, a first segment of one built frame is always read as that frame, labelled with its imei |
| Protocols.PacketsOk | loctrkd/zx303proto.py:834-851 | whatever state the deframer is in, every zx303 packet has the protocol byte its consumers index |
| Protocols.StreamExtends | loctrkd/collector.py:84-86 | for either protocol an arrival without overflow extends the whole-history packets by the packets it yields |
| Registry.MapsAgree | loctrkd/collector.py:109-175 | an imei leads to a descriptor iff that descriptor is served under that imei |
| Registry.NoSharedImei | loctrkd/collector.py:152-158 | no two served connections share an imei |
| Registry.StopConsistent | loctrkd/collector.py:123-132 | stopping keeps both maps in agreement |
| Registry.LogInFrame | loctrkd/collector.py:147-158 | a login changes the connection's own name and removes exactly the one that held the name before |
| Registry.LogInConsistent | loctrkd/collector.py:147-158 | a login, with or without takeover, keeps both maps in agreement |
| Registry.OwnerMeaning | loctrkd/collector.py:130-158 | the owner by the log is the connection of the most recent login with the imei iff it has not been stopped since |
| Registry.StopLogOk | loctrkd/collector.py:130-132 | after a stop the imei map still is what the log says |
| Registry.LogInLogOk | loctrkd/collector.py:151-158 | after a login the imei map still is what the log says |
| RegistryRuns.LabelsStick | loctrkd/collector.py:145-159 | labels keep their order and never change once there is one |
| RegistryRuns.LabelsStart | loctrkd/collector.py:147-151 | they are none before the first identifying packet, whose own imei it is that sticks |
| RegistryRuns.ClientRecvOk | loctrkd/collector.py:51-94 | reading keeps the deframer and the packets equal to the whole-history reference as long as nothing overflows |
| RegistryRuns.EndToEnd | loctrkd/collector.py:51-94 | a connection delivers, labelled, the packets of one pass over all bytes from the first recognised segment on, by the protocol that recognised it |
| RegistryRuns.ServedAsIfAlone | loctrkd/collector.py:117-166 | in any interleaving a connection that stays served ends in the state it would have reached alone, and reading it has returned just what it delivered |
| RegistryRuns.EndToEndRun | loctrkd/collector.py:51-94 | overflows or not, from the first recognised segment on a connection delivers the labelled packets of one run of the deframer that recognised it |
| RegistryRuns.InterleavedEndToEnd | loctrkd/collector.py:117-166 | so from accept on, whatever others do, reading it returns the labelled packets of that run, and without overflow those of one pass over its own bytes |
| RegistryRuns.TakeAllOk | loctrkd/collector.py:134-166 | the labels handed out depend on the connection alone, and other connections are gone or untouched |
| RegistryRuns.RecvOk | loctrkd/collector.py:134-166 | receiving keeps the invariant, says gone iff the descriptor is not served or nothing was read, and then changes nothing |
| RegistryRuns.StopOk | loctrkd/collector.py:123-132 | stopping keeps the invariant and removes exactly that descriptor; repeated, it does nothing |
| RegistryRuns.StopSparesOthers | loctrkd/collector.py:130-131 | stopping a connection never takes an imei away from another |
| RegistryRuns.AddOk | loctrkd/collector.py:117-121 | adding an unused descriptor keeps the invariant |
| RegistryRuns.ReachableOk | loctrkd/collector.py:109-175 | in every reachable state maps, log and all connection records are as they should be |
| Responses.ResponseExact | loctrkd/collector.py:96-99 | a connected terminal is written to iff it speaks zx303 or the response starts with a beesure header, and then in its own framing; else the assertion fails |
| Responses.LastLoginWins | loctrkd/collector.py:168-175 | in every reachable state a response is written to, or fails on, exactly the most recent login with its imei if not stopped since; to be written it must be framable |
| Responses.WrittenSpelledOut | loctrkd/zx303proto.py:117-118 | what is written byte for byte: for zx303 `xx`, the packet and CR LF; for beesure the packet with the imei filled in and its length in upper case |
| Responses.BuiltResponse | loctrkd/beesure.py:134-138 | a response built for beesure reaches a beesure terminal, as the frame with its imei, iff its payload has fewer than 65536 bytes |
| Responses.ForeignCommandFails | loctrkd/beesure.py:134-138 | a zx303 command for a terminal that has just logged in by one beesure frame fails the assertion |
| Responses.OwnerHasDelivered | loctrkd/collector.py:221-259 | whoever can be sent a response has had a packet handed out before, so that the name used at line 259 is bound |
| Iteration.ConsumeOk | loctrkd/collector.py:221-247 | consuming packets, goodbyes included, keeps the invariant, adds no descriptor and publishes every packet |
| Rounds.ConsumeExact | loctrkd/collector.py:221-247 | the messages of one read are all published in order, each answered at most once under its own label, and the connection is stopped iff a goodbye among them is handled |
| Rounds.EventExact | loctrkd/collector.py:202-249 | an event publishes what it reads, queues what the bus brings or messages are answered with, takes up what is accepted, and leaves all else alone |
| Rounds.ServedAfterRead | loctrkd/collector.py:215-242 | a readable connection is gone iff it was not served, the read failed or was empty, or a packet with protocol byte 14 (hexadecimal) is handled; of the others exactly those go whose imei it took |
| Rounds.RecvDisplaces | loctrkd/collector.py:147-158 | a read removes exactly the connection whose imei its first identifying packet takes over, and leaves all others as they were |
| Rounds.BatchExact | loctrkd/collector.py:202-249 | a batch of events comes to their effects one after the other, nothing lost, repeated or reordered |
| Rounds.RoundIsRun | loctrkd/collector.py:198-271 | a round is a run of single accepts, reads and stops, and publishes exactly what reading returns in it |
| Rounds.RoundsAreRuns | loctrkd/collector.py:198-271 | so is any number of rounds, so that what holds of all runs holds of the loop |
| Iteration.HandleAllOk | loctrkd/collector.py:202-249 | so does a whole batch of events in any order, and it queues exactly the accepted descriptors |
| Iteration.PollAgreement | loctrkd/collector.py:265-271 | the poller is left with the served descriptors iff no added one was still polled for a connection stopped in the round |
| Iteration.IterationOk | loctrkd/collector.py:198-271 | a round keeps the invariant, and if nothing is raised its two set differences leave exactly the served descriptors registered |
| Iteration.PollExact | loctrkd/collector.py:193-271 | for descriptors merely unused when added, that holds iff none was served when the round began |
| Iteration.SendAllExact | loctrkd/collector.py:251-264 | responses are tried in order up to the first refused one, those before it are broadcast if connected, and refusal ends the loop |
| Iteration.FirstRefusedIsFirst | loctrkd/collector.py:251-253 | the first refused response is the least that can not be both framed and broadcast |
| Iteration.RoundSurvives | loctrkd/collector.py:251-264 | a round raises nothing iff every queued response to a connected imei can be framed and has a protocol byte |
| Iteration.DeliveriesReachOwners | loctrkd/collector.py:251-264 | each response tried is written to, or fails on, exactly the last login with its imei as of the end of the events; being tried means that all before it were accepted |
| Iteration.OutgoingExact | loctrkd/collector.py:254-263 | exactly the responses written before the first refused one are broadcast as outgoing, in order |
| Iteration.OnlyBusCanStop | loctrkd/collector.py:243-264 | with well-built inline answers a round raises nothing iff every response from the bus is accepted, whatever terminals send and whoever takes an imei over |
| Iteration.RoundsKeepInvariant | loctrkd/collector.py:198-271 | the invariant holds after any number of rounds, up to one that raises something |
| Collector.Client.Recv | loctrkd/collector.py:51-94 | the object reads, recognises and deframes as the registry value says |
| Collector.Clients.Add | loctrkd/collector.py:117-121 | a new object is served under its descriptor and all else is as before |
| Collector.Clients.Stop | loctrkd/collector.py:123-132 | the object is closed and removed, and the imei entry goes iff it led to this very object |
| Collector.Clients.LogIn | loctrkd/collector.py:150-158 | the object takes the imei over and the one that held it is stopped and closed |
| Collector.Clients.HandOut | loctrkd/collector.py:144-166 | the loop over packets labels and logs in as the registry value says |
| Collector.Clients.Recv | loctrkd/collector.py:134-166 | result and new registry are those of the registry value, and no lookup or assertion fails |
| Collector.Clients.Response | loctrkd/collector.py:168-175 | the object found is the one that serves the imei, and it is written to or raises as the registry value says |
| Collector.Server.Consume | loctrkd/collector.py:221-247 | the loop publishes, stops on goodbyes and queues answers as the round value says |
| Collector.Server.HandleEvents | loctrkd/collector.py:199-249 | a batch of events leaves registry and queues as the round value says |
| Collector.Server.SendAll | loctrkd/collector.py:251-264 | every queued response is written and broadcast against the registry as it stands after the events, until one raises something |
| Collector.Server.UpdatePoller | loctrkd/collector.py:265-271 | never unregisters an absent or registers a present descriptor, and leaves the set that the differences say |
| Collector.Server.Round | loctrkd/collector.py:198-271 | a round does what the round value says, broadcasts included, and unless it raises something ends with watched, remembered and served descriptors equal |
| Unzipped.LinesCover | loctrkd/ocid_dload.py:65-76 | lines and tail make up the text and hide no newline |
| Unzipped.LinesUnique | loctrkd/ocid_dload.py:65-76 | there is only one way to take a text apart like that |
| Unzipped.SplitExtends | loctrkd/ocid_dload.py:67-75 | splitting what has arrived finds the first line of the whole text |
| Unzipped.LineReader.Read | loctrkd/ocid_dload.py:51-63 | returns exactly the next n bytes of the text, or all that is left, for any chunking; a finished decoder has nothing pending |
| Unzipped.LineReader.Next | loctrkd/ocid_dload.py:65-76 | returns the first line of the unread text, or nothing iff no newline is left |
| Unzipped.LineReader.Collect | loctrkd/ocid_dload.py:115-116 | iterating to the end yields the newline-terminated lines of the full text and drops only an unterminated tail |
| Bus.RightFieldExact | loctrkd/zmsg.py:126-144 | a protocol field comes back iff it fits and does not end in NUL |
| Bus.StripRightExact | loctrkd/zmsg.py:143-144 | reading a protocol field takes off all zero bytes at its end and nothing else |
| Bus.NameRead | loctrkd/zmsg.py:145-151 | an optional name reads as none iff its field is all marks, and otherwise loses all its outer zero bytes and nothing else |
| Bus.NameExact | loctrkd/zmsg.py:127-151 | an optional name comes back iff it fits, has no outer NUL and is not the mark for none |
| Bus.PeerArrives | loctrkd/zmsg.py:10-39 | every packable peer arrives in its stated form: IPv4-mapped as IPv4, none and the any-address as the empty peer |
| Bus.PeerSpelledOut | loctrkd/zmsg.py:10-25 | the peer byte for byte, IPv4 behind ten zeros and two FF, the port high byte first |
| Bus.PeerRead | loctrkd/zmsg.py:28-39 | that prefix reads as IPv4, all zeros as the empty address, all else as IPv6 |
| Bus.BcastSpelledOut | loctrkd/zmsg.py:120-137 | every byte of a packed broadcast, with zero digits for no imei and spaces for no protocol module |
| Bus.BcastRoundTrip | loctrkd/zmsg.py:120-153 | decoding a packed broadcast gives it back iff each of its fields fits |
| Bus.RespRoundTrip | loctrkd/zmsg.py:161-181 | the same for a response with an imei |
| Bus.RespSpelledOut | loctrkd/zmsg.py:161-172 | every byte of a packed response |
| Bus.ReptRoundTrip | loctrkd/zmsg.py:189-206 | the same for a report |
| Bus.ReptSpelledOut | loctrkd/zmsg.py:189-199 | every byte of a packed report |
| Bus.TopicMatches | loctrkd/zmsg.py:95-100 | a topic is a prefix of a packed broadcast iff direction and padded fields are equal |
| Bus.TopicSpelledOut | loctrkd/zmsg.py:95-100 | every byte of a topic |
| Bus.TopicRoutes | loctrkd/zmsg.py:95-100 | for names that fit, iff direction, protocol and imei are equal |
| Bus.RTopicMatches | loctrkd/zmsg.py:103-104 | a report topic is a prefix of a packed report iff the padded imeis are equal |
| Bus.RTopicRoutes | loctrkd/zmsg.py:103-104 | for names that fit, iff the imeis are equal |
| Centroid.WeightsPositive | loctrkd/opencellid.py:51-52 | with signals of one sign the lookup succeeds and every weight is positive |
| Centroid.WeightsAddUp | loctrkd/opencellid.py:51-52 | the weights add up to one |
| Centroid.LocationInBox | loctrkd/opencellid.py:53-55 | the location lies in every box that holds all matched cells |
| Centroid.FoundExactly | loctrkd/opencellid.py:49-51 | a location is found iff there are matches, none with signal zero, whose inverse signals do not cancel out |
| Centroid.LocationBalances | loctrkd/opencellid.py:51-55 | the location is the one point at which the inverse signals balance, on either axis: the sum of (position - location) / signal is zero there and nowhere else |
| Centroid.NearerToStronger | loctrkd/opencellid.py:51-55 | between two matches it divides either axis in the ratio of the signals, strictly nearer to the stronger |
| Centroid.StrongerWeighsMore | loctrkd/opencellid.py:51-52 | a signal of smaller magnitude weighs strictly more |
| Centroid.LookupIgnoresOrder | loctrkd/opencellid.py:51-55 | the result, failures included, does not depend on the order of matches |
| Centroid.LookupIgnoresScale | loctrkd/opencellid.py:51-55 | nor on a common factor of all signals, -1 included |

## Left out

- Sockets, ZeroMQ, polling, configuration and the clock: events, inputs and results of the environment. A write to a socket that fails there is logged by the source and changes nothing.
- Timestamps and peer addresses that accompany packets through the collector: passed along unchanged.
- Iteration.OutgoingExact: an outgoing broadcast is modelled by its protocol, imei and packet. Its `pmod` label (loctrkd/collector.py:259), which the source takes from the last packet it handled, and the protocol name of any broadcast are left out.
- Beesure.Stream.Recv: the text of a bad-end notice is modelled by the offset it names; the source also quotes up to 64 buffered bytes, which can reach past the frame and so depend on segmentation.
- BeesureTransparency.EnframeExact: payloads are ASCII; the source counts characters and sends bytes, which differ for other text.
- Zx303Wifi.Decode: which six-byte dates read as dates is a parameter, and the converted date is not part of the report.
- Bus.BcastRoundTrip: text is modelled by its bytes, so that a field cut in the middle of a UTF-8 sequence, or bytes that are none, are not modelled as failures; the textual form of addresses and scope and flow of IPv6 peers are left out.
- Unzipped.LineReader.Next: lines are byte strings; decoding them as UTF-8 can raise in the source.
- Centroid.LocationInBox: arithmetic is over reals, without rounding.
- Which packets are answered inline, and with what (loctrkd/zx303proto.py:850-856, loctrkd/beesure.py:628-634): a parameter of the round, since it is a table of classes.
- SQLite storage and queries (loctrkd/evstore.py, loctrkd/storage.py, the query in loctrkd/opencellid.py): matched rows are an input.
- loctrkd/wsgateway.py: its state lives in a WebSocket library that is not part of this model.
- The other message classes of both protocols and the class tables: fixed-field encoders without a property beyond their body; `_LOC_DATA` of beesure has no encoder to invert.
- loctrkd/googlemaps.py, loctrkd/mkgpx.py, loctrkd/qry.py, loctrkd/watch.py, loctrkd/termconfig.py, loctrkd/rectifier.py, loctrkd/__main__.py, webdemo/index.html: plumbing or user interface.
