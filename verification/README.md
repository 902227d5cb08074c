# Models and proofs for the gateway firmware

This project models, in Dafny, the parts of the firmware in which a state is carried over many
small steps, and proves what they promise over whole runs. The code is modelled in its own form:
records whose fields are updated are classes, buffers are arrays, loops are loops. Each method is
proved against a specification function, and the promises are lemmas about those functions.

| file | what it models |
|---|---|
| `DnsName.dfy`, `DnsRoundTrip.dfy` | the mDNS name writer with its compression, and the name reader (RFC 1035, section 4.1.4) |
| `DnsMeaning.dfy`, `DnsSubtype.dfy` | what the labels of a name mean to the reader, and the mark of a subtype on names that were written |
| `EncryptedImage.dfy` | the resumable header parser and the 16-byte re-chunker of image decryption; the cipher is a parameter |
| `GenericDecoder.dfy`, `GenericDecoderProofs.dfy` | the table-driven pulse decoder |
| `RfSender.dfy`, `SlowRf.dfy` | the FS20 and Intertechno senders, and the decoders for their signals |
| `RfRoundTrip.dfy`, `RfIntertechno.dfy` | what the decoders make of those signals under jitter |
| `RfMeaning.dfy` | what the decoders make of any pulses at all |
| `RfMistaken.dfy`, `RfV3AsFs20.dfy`, `RfFs20Alone.dfy` | which of those signals a decoder of another kind can take for its own |
| `Md5.dfy` | streaming MD5 around an arbitrary block transformation (RFC 1321, section 3) |
| `TxQueue.dfy`, `Pcb.dfy` | the mDNS transmit queue, and probing and announcing (RFC 6762, section 8) |
| `Txt.dfy`, `TieBreak.dfy` | TXT records (RFC 6763, section 6) and the conflict tie-break (RFC 6762, section 8.2) |
| `Slip.dfy` | SLIP framing (RFC 1055) |
| `DutyCycle.dfy` | the transmission time budget |

Where the code does not keep a promise, the project keeps the code as it is and says exactly when
the promise holds:

- A name that `append_fqdn` completes reads back exactly if its labels in front of the back-pointer,
  together with what the copy behind the pointer spells once the pointer is written, are the strings
  (`NameReadsBackIff`). What the copy spells then depends only on the bytes below the pointer
  (`SpelledByWritten`). Unless a pointer of the copy, or a label that ends inside the new pointer or right
  behind it, lies across the pointer's place, that is the case exactly if the copy begins below the name
  and was read from bytes that were already written. The copy of a name of twice the same label begins in the
  name itself (`HostCalledLocal`); a label that an unfinished name left behind begins below it, but was
  read on into bytes that the pointer replaces (`CutOffLabelFound`).
- The writer takes the name of a subtype for a copy of the name without `_sub`, so a name that reads back as it
  was written is marked as a subtype exactly if its back-pointer leads to the name of one (`MarkedIff`,
  `SubtypeIsTaken`).
- `append_fqdn` completes a name exactly if there is room for its labels up to the back-pointer, or for
  all of them. The returned count does not show that a name was cut off, exactly if its first label
  fits and the rest does not (`UnnoticedIff`).
- Decryption finishes exactly if some chunk ends where the image ends, and the end is successful exactly
  if moreover the tag is right (`FinishesIff`). An empty body is answered with an allocation error where
  the allocator gives nothing for 0 bytes. At the end nothing is checked before the body begins, not even
  that the image was not rejected (`DecryptEnd`).
- The generic decoder takes a pulse that does not continue a sync for the first of a new one exactly if it has
  the level that was to come next; if it has not, the sync that begins with it is missed (`RetryIff`).
- The generic decoder decodes every in-tolerance symbol exactly if its two symbols are apart at some
  index that both have.
- Whether a wrong symbol in an FS20 frame always goes unreported depends on its place and the number
  of bytes, and `CaughtIff` says exactly how. Among the bytes and their parities it does exactly in
  frames of at most five bytes; in frames of five bytes those are exactly the symbols for which it
  does, and a wrong preamble or sync symbol can be reported.
- The V1 decoder reports a word exactly if its length is 12 modulo 13, the V3 decoder if it has at
  least 32 symbols. V3 words are safe from being taken for V1 words exactly if their long pulses are
  longer than 800 (`NeverV1Iff`), and from being taken for FS20 exactly if their long pulses are at most
  900 and their short ones all below 250, all from 250 to 550, or all above 550 (`NeverFs20Iff`); where
  both hold they are reported once and as themselves (`V3Alone`).
- FS20 signals are never taken for V3 words, and are safe from being taken for V1 words exactly if their
  pulses are at most 800 or they have at most two bytes (`NeverV1From20Iff`); then every repetition is
  reported once and as itself (`Fs20AloneRepeated`).
- Probing again loses services exactly if there are more than 255 of them, because the length of the list
  is kept in a byte (`ReprobeIsUnion`).
- A probe is scheduled exactly if there is a hostname, and a packet and a list can be made; where the list cannot,
  the queue is cleared all the same, and an interface that was probing waits for a probe that is gone
  (`ProbeIsScheduledIff`).
- TXT items come back unchanged exactly if only the last of them is without an equals sign and no
  value is empty.
- A SLIP payload comes back as it was sent exactly if its first byte needs no escaping, or is the
  escape byte and chance helps.
- A request for transmission time is granted exactly if it fits the rest of the budget or overflows
  32 bits. Every hour stays within twice the budget exactly if no request overflows the counter when
  it is made, and that much is reached.

The probe lists stay in order over all runs the responder can make, those that start without a hostname
included (`RunsAreSafe`). That rests on a hostname being kept once there is one, as `mdns_hostname_set`
and `mdns_free` do (mdns_responder.c:591-598, mdns_service.c:395-415); `HostnameMatters` shows why.

Clocks, random numbers, allocation results, the answers of other components and the carrier's jitter
are parameters.

## Model

| member | source | states |
|---|---|---|
| DnsName.ReadFqdn | managed_components/espressif__mdns/mdns_utils.c:18-69 | the reader terminates on any bytes and leaves exactly the name, and the end of the name, that a run over the bytes gives; what that name means, its marks included, say `DnsMeaning.FlagsRead` and the rows beside it |
| DnsName.ReadItem | managed_components/espressif__mdns/mdns_utils.c:22-67 | one turn of the loop moves forward over a label or ends at a back-pointer, and keeps the result of the whole run |
| DnsName.PassLabel | managed_components/espressif__mdns/mdns_utils.c:26-55 | a label goes into the name unless it is longer than 63 bytes or cut off |
| DnsName.FollowPointer | managed_components/espressif__mdns/mdns_utils.c:56-66 | a back-pointer is followed only to an address below the one the reading started at, and ends the reading |
| DnsName.ReadLabel | managed_components/espressif__mdns/mdns_utils.c:28-39 | a label is read exactly if it is no longer than 63 bytes and lies inside the packet |
| DnsName.StoreLabel | managed_components/espressif__mdns/mdns_utils.c:40-55 | how a label becomes a part of the name: later labels without an underscore are folded into the host, `_sub` into a flag |
| DnsName.RunCollects | managed_components/espressif__mdns/mdns_utils.c:18-69 | the reader's run collects exactly the labels and jumps that the bytes spell, and fails when they cannot be read |
| DnsName.ReadFrame | managed_components/espressif__mdns/mdns_utils.c:18-69 | a successful reading depends only on the bytes it reaches |
| DnsName.FindIsFirst | managed_components/espressif__mdns/mdns_send.c:689-722 | the accepted copy is the first position in the packet that is accepted |
| DnsName.TxBuffer.AppendU8 | managed_components/espressif__mdns/private_include/mdns_utils.h:147-155 | a byte is written unless the packet is full |
| DnsName.TxBuffer.AppendU16 | managed_components/espressif__mdns/mdns_utils.c:262-270 | two bytes, the higher first, or nothing |
| DnsName.TxBuffer.AppendString | managed_components/espressif__mdns/mdns_send.c:103-113 | a label with its length byte, or nothing; length and count are cut to 8 bits |
| DnsName.TxBuffer.Check | managed_components/espressif__mdns/mdns_send.c:701-716 | a candidate is accepted exactly if reading it gives the parts to be written, up to case |
| DnsName.TxBuffer.FindCopy | managed_components/espressif__mdns/mdns_send.c:689-722 | the scan finds the first acceptable copy before the index, or none |
| DnsName.TxBuffer.AppendFqdn | managed_components/espressif__mdns/mdns_send.c:678-739 | the writer leaves the bytes, the index and the count that the specification gives, on every path |
| DnsMeaning.EqNoCaseIff | managed_components/espressif__mdns/mdns_utils.c:40-50 | two strings are equal up to case exactly if byte by byte they are the same or the same ASCII letter |
| DnsMeaning.FoldsIff | managed_components/espressif__mdns/mdns_utils.c:40-47 | a second label belongs to the host exactly if it has no underscore and is none of local, arpa, ip6 and in-addr |
| DnsMeaning.HostOfLabels | managed_components/espressif__mdns/mdns_utils.c:40-49 | a first label and such labels behind it are one part: the labels with dots between them, of which 64 bytes are kept |
| DnsMeaning.SubSeenIff | managed_components/espressif__mdns/mdns_utils.c:50-51 | a name is marked as a subtype exactly if some label is `_sub`, in whatever case |
| DnsMeaning.SubsLeaveNoPart | managed_components/espressif__mdns/mdns_utils.c:50-51 | otherwise such a label leaves no trace: the parts are those of the name without it |
| DnsMeaning.InvalidIff | managed_components/espressif__mdns/mdns_utils.c:23-25 | a name is invalid exactly if anything follows its fourth part, be it only a back-pointer |
| DnsMeaning.FlagsRead | managed_components/espressif__mdns/mdns_utils.c:18-69 | what a run of the reader leaves on any readable bytes: mark, validity and parts as the labels there give them |
| DnsMeaning.EndsWithPacket | managed_components/espressif__mdns/mdns_utils.c:22-68 | a label that ends with the packet ends the name, and the position behind the name is past the end |
| DnsMeaning.PointerIff | managed_components/espressif__mdns/mdns_send.c:736-738 | the two bytes of a back-pointer are two ones and the fourteen bits of the position, the higher first |
| DnsMeaning.CopyHasTheBytes | managed_components/espressif__mdns/mdns_send.c:689-722 | the copy a pointer leads to has the very bytes of the first label; all labels agree letter by letter |
| DnsRoundTrip.NameReadsBack | managed_components/espressif__mdns/mdns_send.c:678-739 | a completed name of caller shape, whose accepted copy was read from written bytes only and lies below it, reads back as the same parts up to case and ends at the new index |
| DnsRoundTrip.NameReadsBackIff | managed_components/espressif__mdns/mdns_send.c:678-739 | a completed name reads back exactly if what it spells are the strings; unless its copy is doubtful, exactly if that begins below the name and was read from written bytes only |
| DnsRoundTrip.WholeIsRead | managed_components/espressif__mdns/mdns_utils.c:18-69 | the reader gets of a completed name the items that the bytes below the pointer spell, and stops behind the name, or it overreads or fails exactly if they spell none |
| DnsRoundTrip.SpelledByWritten | managed_components/espressif__mdns/mdns_send.c:689-722 | what a copy spells does not depend on the bytes at the pointer's place or behind it |
| DnsRoundTrip.DoubtfulReadsBack | managed_components/espressif__mdns/mdns_send.c:689-722 | a doubtful copy that was not read from written bytes may read back all the same |
| DnsRoundTrip.CannotBeRead | managed_components/espressif__mdns/mdns_utils.c:56-66 | a name whose pointer leads into itself, or whose copy ran on into the pointer, is unreadable; one whose copy lay across the pointer cannot be read from its own bytes |
| DnsRoundTrip.OldNamesSurvive | managed_components/espressif__mdns/mdns_send.c:678-739 | every name that was in the packet reads as before |
| DnsRoundTrip.AppendFrame | managed_components/espressif__mdns/mdns_send.c:678-739 | the bytes below the old index are not touched |
| DnsRoundTrip.CompleteIff | managed_components/espressif__mdns/mdns_send.c:678-739 | a name is completed exactly if its labels up to the pointer, or all of them, fit; then the index is behind it, and the count is always what the index moved by |
| DnsRoundTrip.RoomSuffices | managed_components/espressif__mdns/mdns_send.c:678-739 | with room for the uncompressed name the writer completes it and returns the number of bytes it took |
| DnsRoundTrip.UnnoticedIff | managed_components/espressif__mdns/mdns_send.c:727-738 | the count is positive for a name that was cut off exactly if its first label was written and the name does not fit |
| DnsRoundTrip.CutOffUnnoticed | managed_components/espressif__mdns/mdns_send.c:727-738 | an instance: the count is 3 although the second label was not written |
| DnsRoundTrip.HostCalledLocal | managed_components/espressif__mdns/mdns_send.c:678-739 | twice the same label in an otherwise empty packet becomes a pointer into itself, which no reader accepts |
| DnsRoundTrip.CutOffLabelFound | managed_components/espressif__mdns/mdns_send.c:689-722 | a label left behind by an unfinished name is found as a copy, and the pointer written behind it is led back to itself |
| DnsRoundTrip.WrittenAgain | managed_components/espressif__mdns/mdns_send.c:678-739 | a name that reads back takes two bytes when it is written once more, in whatever case but for the first label |
| DnsSubtype.MarkedIff | managed_components/espressif__mdns/mdns_send.c:693-717 | a name that reads back is marked as a subtype exactly if its pointer leads to the name of one |
| DnsSubtype.SubtypeIsTaken | managed_components/espressif__mdns/mdns_send.c:693-717 | the name of a subtype is accepted as a copy of the name without `_sub`, which then reads back with the mark |
| EncryptedImage.Handle.ReadAndCache | managed_components/espressif__esp_encrypted_img/src/esp_encrypted_img.c:250-265 | the cache gathers the next bytes of a header field, and no more than the field has |
| EncryptedImage.Handle.DecipherGcmKey | managed_components/espressif__esp_encrypted_img/src/esp_encrypted_img.c:69-120 | the key is unwrapped from the gathered block, or the image is rejected |
| EncryptedImage.Handle.StageGcm | managed_components/espressif__esp_encrypted_img/src/esp_encrypted_img.c:313-330 | the key block is complete or keeps waiting, from the chunk or from the cache |
| EncryptedImage.Handle.StageBinSize | managed_components/espressif__esp_encrypted_img/src/esp_encrypted_img.c:361-375 | the size field is the little-endian word at its place in the stream, however it was cut; `EncryptedImage.AssembledImage` says so in bytes |
| EncryptedImage.Handle.Rechunk | managed_components/espressif__esp_encrypted_img/src/esp_encrypted_img.c:170-216 | only whole blocks of 16 bytes go through the cipher; what is left over waits in the cache |
| EncryptedImage.Handle.Flush | managed_components/espressif__esp_encrypted_img/src/esp_encrypted_img.c:217-247 | at the end of the body everything goes through the cipher |
| EncryptedImage.Handle.ProcessBin | managed_components/espressif__esp_encrypted_img/src/esp_encrypted_img.c:163-248 | emitted and cached bytes together are the body received so far, and the verdict tells whether it is complete or has nothing to allocate for |
| EncryptedImage.Handle.DecryptData | managed_components/espressif__esp_encrypted_img/src/esp_encrypted_img.c:267-411 | a call fails exactly if the stream is rejected, finishes exactly if it is complete, asks in vain for 0 bytes exactly if nothing is left to decrypt, and emits what the stream calls for; calls behind a complete image too |
| EncryptedImage.Handle.DecryptEnd | managed_components/espressif__esp_encrypted_img/src/esp_encrypted_img.c:413-456 | success exactly for a complete body with the right tag, or before the body begins, a rejected image included |
| EncryptedImage.DecryptSplit | managed_components/espressif__esp_encrypted_img/src/esp_encrypted_img.c:163-248 | decryption may be cut at multiples of 16 bytes |
| EncryptedImage.DecryptChunks | managed_components/espressif__esp_encrypted_img/src/esp_encrypted_img.c:267-456 | outcome and end of a list of chunks are functions of the stream and its cuts |
| EncryptedImage.CompleteAtEnd | managed_components/espressif__esp_encrypted_img/src/esp_encrypted_img.c:163-248 | the body is complete exactly at the end of the image, and then all of it has been emitted |
| EncryptedImage.FinishesIff | managed_components/espressif__esp_encrypted_img/src/esp_encrypted_img.c:267-456 | a stream of chunks finishes exactly if a chunk ends where the image ends, and then the output is the plain text; the end is successful exactly if moreover the tag is right |
| EncryptedImage.WholeImage | managed_components/espressif__esp_encrypted_img/src/esp_encrypted_img.c:267-456 | any cutting of an image gives the one-shot decryption of its body, and the end tells whether the tag is right |
| EncryptedImage.AssembledImage | managed_components/espressif__esp_encrypted_img/src/esp_encrypted_img.c:50-61 | an image put together from CF B6 88 07, key block, vector, four length bytes, tag, reserved bytes and body decrypts, in any cutting, to that body under that key and vector, and the end compares that tag |
| EncryptedImage.RefusedIff | managed_components/espressif__esp_encrypted_img/src/esp_encrypted_img.c:283-311 | a stream is refused exactly if its first four bytes are others, or its key block cannot be unwrapped |
| GenericDecoder.ParsePulseDef | main/generic_decoder.c:124-146 | the table holds the pulses of the pairs in order, and never more than 16 |
| GenericDecoder.FlattenAt | main/generic_decoder.c:124-146 | pairs with both pulses give a high and a low pulse each, in multiples of the base length, 16 bits wide |
| GenericDecoder.Decoder.OneProtocol | main/generic_decoder.c:233-354 | a pulse advances one protocol and touches no other |
| GenericDecoder.Decoder.ProcessPulse | main/generic_decoder.c:233-354 | all protocols advance, their packets come out in order, and every index stays inside its table |
| GenericDecoderProofs.PacketsAreParses | main/generic_decoder.c:233-354 | from any reachable state, each packet is a true parse of its own stretch of pulses |
| GenericDecoderProofs.Soundness | main/generic_decoder.c:233-354 | every packet on any stream is one sync and k symbols spelling the buffer modulo 2^64, with k the maximum, or at least the minimum and then a pulse that continues neither symbol |
| GenericDecoderProofs.ApartIff | main/generic_decoder.c:216-220 | two table entries are apart exactly if no pulse matches both |
| GenericDecoderProofs.FollowsIff | main/generic_decoder.c:216-220 | pulses follow a table exactly if levels agree and, unless the entry allows any length, each is off by less than the tolerance |
| GenericDecoderProofs.SymbolsDecodeIff | main/generic_decoder.c:284-350 | every in-tolerance symbol is decoded exactly if the two symbols are apart somewhere |
| GenericDecoderProofs.Completeness | main/generic_decoder.c:233-354 | a sync and the maximal number of symbols give exactly one packet with those bits, and the decoder is reset, from every waiting state in which the sync can begin, be it in the middle of another one |
| GenericDecoderProofs.RetryIff | main/generic_decoder.c:265-281 | a pulse that matches the first of the sync but not the next is tried as the first exactly if it has the level of the next |
| GenericDecoderProofs.SyncFound | main/generic_decoder.c:243-282 | from every such state the sync is found |
| GenericDecoderProofs.BreaksOff | main/generic_decoder.c:313-322 | a transmission that breaks off, be it inside a symbol, gives exactly one packet with its bits if they are enough, and none otherwise |
| GenericDecoderProofs.PacketDeterminesWord | main/generic_decoder.c:333-349 | up to 64 bits the packet determines what was sent |
| GenericDecoderProofs.BitAt | main/generic_decoder.c:332-342 | each of the last 64 bits has its place in the packet, the last one the lowest |
| GenericDecoderProofs.OutputsInOrder | main/generic_decoder.c:233-354 | the packets of one pulse come in the order of the protocols, at most one of each |
| GenericDecoderProofs.ProcessStream | main/generic_decoder.c:233-354 | over a whole stream each protocol behaves as if it were the only one |
| RfSender.Line.SetLevel | main/cc1101.c:211-223 | setting the level the line already has does not end a pulse |
| RfSender.SendBits20 | main/cc1101.c:290-295 | the bits of a byte, the highest first, and whether the number of ones is odd |
| RfSender.SendFrame20 | main/cc1101.c:283-299 | preamble, sync bit, bytes with their parities, and a closing zero whose low pulse runs on into the pause |
| RfSender.SendRawSlowRf | main/cc1101.c:273-304 | ten frames if the budget grants them, nothing otherwise |
| RfSender.SendFs20 | main/cc1101.c:306-322 | housecode, address, command and their checksum modulo 256 are sent |
| RfSender.SendItV1 | main/cc1101.c:225-269 | ten times the symbols of the word and the sync gap |
| RfSender.SendItV3 | main/cc1101.c:324-362 | six times a leading gap, the symbols and a closing gap, if the budget grants them |
| SlowRf.GroupOf | main/slowrf.c:524-529 | the parity loop accepts a group of nine bits exactly if its number of ones is even, and its byte is the first eight bits |
| SlowRf.Fs20Decoder.CountOnes | main/slowrf.c:526 | the loop counts the ones of a byte |
| SlowRf.Fs20Decoder.Pulse | main/slowrf.c:509-532 | a pulse changes the decoder's record as the specification says, for every length |
| SlowRf.Ring | main/slowrf.c:481-485 | overwriting the oldest entry of the ring slides the window of the last four pulses |
| SlowRf.It1Decoder.Pulse | main/slowrf.c:477-507 | the search in the ring and the collecting of symbols refine a sliding window |
| SlowRf.It3Decoder.Pulse | main/slowrf.c:461-475 | four pulses are a symbol or end the frame; the 32nd symbol ends it too |
| SlowRf.Receiver.OnGap | main/slowrf.c:306-422 | a gap reports what is complete, resets all decoders, and arms the V3 decoder if its length fits |
| SlowRf.Receiver.Pulse | main/slowrf.c:306-532 | one turn of the loop does to all decoders what the specification says |
| SlowRf.Receiver.Listen | main/slowrf.c:286-532 | state and reports after any stream of pulses |
| RfRoundTrip.RunNoGap | main/slowrf.c:461-532 | between two gaps the decoders work side by side and nothing is reported |
| RfRoundTrip.Fs20RoundTrip | main/slowrf.c:307-321 | for every jitter inside the windows exactly the bytes that were sent are reported, if there are four or more, and at most sixteen of them |
| RfRoundTrip.Fs20Repetitions | main/cc1101.c:282-300 | each repetition is reported on its own |
| RfRoundTrip.TurnedResets | main/slowrf.c:524-529 | a wrong symbol among the bytes makes the decoder start again with the bytes behind it |
| RfRoundTrip.EarlySyncIs | main/slowrf.c:520-529 | after a wrong preamble symbol the decoder holds a byte for every nine zeros, and is out of step with the bytes or starts again |
| RfRoundTrip.WeightOfBits | main/slowrf.c:520-531 | a byte costs nine bits and a synchronisation one, so few bits cannot fill the buffer |
| RfRoundTrip.CaughtIff | main/slowrf.c:520-532 | for the k-th symbol of a frame of n bytes, preamble and sync bit included: a frame with that symbol turned is never reported, resynchronisation included, exactly if the error leaves too few bits for four bytes |
| RfRoundTrip.ByteErrorsAreCaughtIff | main/slowrf.c:312 | all wrong symbols among the bytes and their parities go unreported exactly in frames of at most five bytes |
| RfRoundTrip.AllErrorsAreCaughtIff | main/slowrf.c:520-532 | all wrong symbols anywhere go unreported exactly in frames of at most one byte |
| RfRoundTrip.FiveBytes | main/cc1101.c:283-299 | in a frame of five bytes a wrong symbol always goes unreported exactly behind the sync bit |
| RfIntertechno.V1Reports | main/slowrf.c:477-507 | a word is reported exactly if its length is 12 modulo 13, and then its last twelve symbols |
| RfIntertechno.V1Alone | main/slowrf.c:323-326 | a word of twelve symbols makes exactly one report, and neither an FS20 nor a V3 report |
| RfIntertechno.V1Repetitions | main/cc1101.c:262-269 | ten frames make ten such reports |
| RfIntertechno.V3Reports | main/slowrf.c:461-475 | a frame is reported exactly if it has at least 32 symbols, and then the first 32 |
| RfIntertechno.V3Repetitions | main/cc1101.c:335-358 | each repetition of a 32-symbol frame is reported once |
| RfIntertechno.V3AsV1 | main/slowrf.c:477-507 | a V3 frame in the windows of both decoders is reported as V1 exactly if its length is 12 modulo 13 |
| RfIntertechno.V3IsNeverV1 | main/slowrf.c:323-355 | so a 32-symbol frame is reported by the V3 decoder and not by the V1 decoder |
| RfMeaning.NoiseIsIgnored | main/slowrf.c:509-519 | pulses below 250 and from 1601 to 4000 do not matter to the FS20 decoder, not even between the halves of a bit |
| RfMeaning.HalfIsForgotten | main/slowrf.c:509-519 | a half that is not followed by its other half is forgotten |
| RfMeaning.Fs20Mixed | main/slowrf.c:509-532 | a transmission is reported however its bits are formed: two halves of 250 to 550 or of 551 to 900, one pulse of 901 to 1150 or of 1151 to 1600, with noise anywhere and any preamble |
| RfMeaning.Fs20Sound | main/slowrf.c:509-532 | whatever is received, a report is the bytes of a one, whole groups with the right parities, and fewer than nine bits that were heard last |
| RfMeaning.CommandIsReported | main/cc1101.c:306-322 | a command is reported as house code, address, command and a byte that makes their sum and 6 agree modulo 256 |
| RfMeaning.V3Iff | main/slowrf.c:461-475 | between any two gaps a V3 word is reported exactly if the first gap is from 8001 to 10999 and the first 128 pulses spell it |
| RfMeaning.V1Sound | main/slowrf.c:477-507 | whatever is received, a reported V1 word is spelled by 48 pulses with at most three more before the gap |
| RfMeaning.V1BehindNoise | main/slowrf.c:477-507 | a V1 word is reported behind any pulses, as long as its first symbol is the first that can be found |
| RfMeaning.BrokenOff1 | main/slowrf.c:495-506 | four pulses that are no symbol throw away what the V1 decoder has collected |
| RfMistaken.V3TakenForV1 | main/slowrf.c:461-507 | with any long pulses from 600 to 800 a V3 frame can be reported as a V1 word as well |
| RfMistaken.NeverV1Iff | main/slowrf.c:468-479 | no V3 word with long pulses of at least a limit is reported as a V1 word exactly if the limit is more than 800 |
| RfV3AsFs20.SymbolsInTurn | main/slowrf.c:509-532 | with short pulses that are half zeros and long ones that are half ones the FS20 decoder hears ones and zeros in turn, whatever the V3 word, and never holds more than a byte |
| RfV3AsFs20.OnesOnly | main/slowrf.c:520-529 | without half zeros it hears only ones, nine of which have the wrong parity |
| RfV3AsFs20.NeverFs20Iff | main/slowrf.c:509-532 | for every range of short and of long pulses that the V3 decoder accepts: no V3 word is reported as FS20 exactly if the long pulses are at most 900, and the short ones all below 250, all from 250 to 550, or all above 550 |
| RfV3AsFs20.V3TakenForFs20 | main/slowrf.c:509-532 | in all other ranges there is a V3 word that is reported as at least six bytes of FS20 |
| RfV3AsFs20.V3Alone | main/slowrf.c:306-355 | in safe ranges, with long pulses of more than 800, a V3 word makes exactly one report, the right one |
| RfFs20Alone.Fs20IsNotV3 | main/slowrf.c:461-475 | no FS20 signal is reported as a V3 word, although the pause before it makes the V3 decoder listen |
| RfFs20Alone.TwoBytesAreTooShort | main/slowrf.c:477-507 | behind the preamble of two bytes there are too few pulses for the twelve symbols of a V1 word |
| RfFs20Alone.Fs20TakenForV1 | main/slowrf.c:477-507 | with some halves of ones at 801, three bytes at the end of any signal can be reported as a V1 word as well |
| RfFs20Alone.NeverV1From20Iff | main/slowrf.c:477-507 | no FS20 signal of n bytes with pulses up to a limit is reported as a V1 word exactly if the limit is at most 800, or there are at most two bytes |
| RfFs20Alone.Fs20Alone | main/slowrf.c:306-355 | such a signal makes exactly one report, the right one, or none if it has less than four bytes |
| RfFs20Alone.Fs20AloneRepeated | main/cc1101.c:282-300 | so does every repetition, each with its own jitter |
| Md5.Context.Init | managed_components/espressif__esp-serial-flasher/src/md5_hash.c:58-67 | the context of the empty message |
| Md5.CounterStep | managed_components/espressif__esp-serial-flasher/src/md5_hash.c:79-83 | carry and shifts keep the two words equal to eight times the length modulo 2^64 |
| Md5.CounterTail | managed_components/espressif__esp-serial-flasher/src/md5_hash.c:85 | the low word tells how many bytes wait in the block buffer |
| Md5.Context.Update | managed_components/espressif__esp-serial-flasher/src/md5_hash.c:73-116 | the state is the fold over the whole blocks so far, the buffer holds the rest, the counter the length |
| Md5.Context.Pad | managed_components/espressif__esp-serial-flasher/src/md5_hash.c:127-156 | the blocks are those of the message padded as section 3.1 and 3.2 of RFC 1321 say |
| Md5.Context.Final | managed_components/espressif__esp-serial-flasher/src/md5_hash.c:122-161 | the digest is the hash of the padded message, and the context is cleared |
| Md5.HashChunks | managed_components/espressif__esp-serial-flasher/src/md5_hash.c:58-161 | any pieces of a message give the digest of the whole |
| Md5.PaddedLength | managed_components/espressif__esp-serial-flasher/src/md5_hash.c:135-148 | a padded message consists of whole blocks |
| Md5.PaddedMessagesDiffer | managed_components/espressif__esp-serial-flasher/src/md5_hash.c:118-153 | different messages have different padded messages, as long as the counter can tell their lengths apart |
| Md5.PaddingIff | managed_components/espressif__esp-serial-flasher/src/md5_hash.c:122-156 | the padding is the one row of bytes that sections 3.1 and 3.2 of RFC 1321 describe: a one, as few zeros as possible, the number of bits modulo 2^64 |
| Md5.DigestSpells | managed_components/espressif__esp-serial-flasher/src/md5_hash.c:157-159 | the digest is the four words of the last state, each with its lowest byte first |
| Md5.StartBytes | managed_components/espressif__esp-serial-flasher/src/md5_hash.c:58-64 | the start state is 01 23 45 67 89 ab cd ef fe dc ba 98 76 54 32 10 |
| TxQueue.Queue.SendAfter | managed_components/espressif__mdns/mdns_send.c:1628-1647 | the packet is inserted behind everything due no later than it, and the list stays sorted |
| TxQueue.QueueIsStable | managed_components/espressif__mdns/mdns_send.c:1628-1647 | after any packets have been sent the queue is sorted, and packets with the same time are in the order of sending |
| TxQueue.HeadIsFirst | managed_components/espressif__mdns/mdns_send.c:1837-1848 | the head is due no later than anything sent, and was sent first of what is due with it |
| TxQueue.Queue.ClearIf | managed_components/espressif__mdns/mdns_send.c:1667-1687 | exactly the packets of the interface are gone, the others keep their order and their times |
| TxQueue.RemovedAsNeverSent | managed_components/espressif__mdns/mdns_send.c:1667-1687 | removing packets leaves the queue as if they had never been sent |
| TxQueue.RunsAreStable | managed_components/espressif__mdns/mdns_send.c:1628-1848 | after any sending, taking, clearing and dropping the queue is the stable sort of what has been sent and not been removed |
| TxQueue.DroppedPackets | managed_components/espressif__mdns/mdns_send.c:1819-1824 | what removing a service leaves of the queue is what is left when the packets without anything to say are dropped |
| TxQueue.Queue.NextPacket | managed_components/espressif__mdns/mdns_send.c:1695-1705 | the first packet of an interface, or none |
| TxQueue.Queue.TakeForSending | managed_components/espressif__mdns/mdns_send.c:1837-1848 | only the queued head is taken, nothing left in the queue is due before it, and the others keep their order and their times |
| TxQueue.DeallocAnswers | managed_components/espressif__mdns/mdns_send.c:1753-1773 | exactly the answers of the service are removed |
| TxQueue.Queue.RemoveService | managed_components/espressif__mdns/mdns_send.c:1778-1825 | no record of any packet in the queue belongs to the service any more; packets lose nothing else but its question where its interface was probing for it, each interface forgets it in turn, and packets left empty are detached |
| TxQueue.PurgedMentionsNothing | managed_components/espressif__mdns/mdns_send.c:1788-1790 | the answers, additional and server records left in a packet are exactly those of other services |
| TxQueue.QuestionsLeft | managed_components/espressif__mdns/mdns_send.c:1796-1816 | of the questions exactly the first of type ANY for the service is missing, and none where it was not asked for |
| TxQueue.RemovesAnswersIff | managed_components/espressif__mdns/mdns_send.c:1786-1795 | the answers count as removed exactly if there were some and all were the service's |
| Pcb.Interfaces.InitNewService | managed_components/espressif__mdns/mdns_pcb.c:339-387 | the new list is the new services and the old ones; on failures the list is kept or dropped as in the code |
| Pcb.Interfaces.InitPcbProbe | managed_components/espressif__mdns/mdns_pcb.c:389-424 | the queue is cleared, services probed for already are left out, and a probe is scheduled |
| Pcb.Interfaces.EnablePcb | managed_components/espressif__mdns/mdns_pcb.c:172-181 | enabling probes for everything, breaks the invariant exactly if it loses a list, and leaves the events of a probe in the queue |
| Pcb.Interfaces.DisablePcb | managed_components/espressif__mdns/mdns_pcb.c:153-167 | the interface is off, and a duplicate set aside for it is enabled instead |
| Pcb.Interfaces.SetDuplicatePcb | managed_components/espressif__mdns/mdns_pcb.c:186-204 | the interface is set aside on every protocol the other one serves, its packets are gone, and the other announces its addresses |
| Pcb.Interfaces.AnnouncePcb | managed_components/espressif__mdns/mdns_pcb.c:43-84 | announcing probes again while probing, restarts announcements, or does nothing, by state |
| Pcb.Interfaces.HandleSent | managed_components/espressif__mdns/mdns_pcb.c:211-259 | which state follows a sent packet, and when it is sent again |
| Pcb.Interfaces.CheckProbing | managed_components/espressif__mdns/mdns_pcb.c:261-300 | a service leaves the probe list; the last one ends the probing unless addresses are probed for |
| Pcb.Interfaces.ProbeAll | managed_components/espressif__mdns/mdns_pcb.c:445-462 | every ready interface starts a probe of its own, and the queue gets their packets in turn |
| Pcb.ForgetsOnlyIt | managed_components/espressif__mdns/mdns_pcb.c:265-291 | exactly the first item of the service leaves the list; nothing else changes while items are left, and the answer is whether there was one |
| Pcb.OthersAreLeft | managed_components/espressif__mdns/mdns_pcb.c:265-291 | where every service has one item, those of the other services are left, in their order |
| Pcb.ProbeIsScheduledIff | managed_components/espressif__mdns/mdns_pcb.c:339-424 | when a probe is scheduled, and what is left of the interface when it is not |
| Pcb.NewInFront | managed_components/espressif__mdns/mdns_pcb.c:345-366 | the services that are not probed for yet come first, in their order, and the old ones behind them |
| Pcb.FreshProbe | managed_components/espressif__mdns/mdns_pcb.c:353-386 | a probe that starts afresh asks for all services exactly if there are fewer than 256 |
| Pcb.BacksOffIff | managed_components/espressif__mdns/mdns_pcb.c:385 | the first probe waits for at least a second exactly after more than five conflicts |
| Pcb.SetAsideAndBack | managed_components/espressif__mdns/mdns_pcb.c:107-204 | setting an interface aside, finding the duplicate gone, and switching off |
| Pcb.AnnouncesAgain | managed_components/espressif__mdns/mdns_pcb.c:43-84 | announcing again starts over while announcing with a packet in the queue, or while running with a hostname |
| Pcb.StepKeepsOkIff | managed_components/espressif__mdns/mdns_pcb.c:389-424 | under the invariant the merged list always fits, and an operation keeps the invariant exactly if it does not start a probe without a hostname while there is a list |
| Pcb.RunsAreSafe | managed_components/espressif__mdns/mdns_pcb.c:107-462 | over all interleavings in which a hostname stays once there is one, from the start without a hostname on, no services are left over outside a probe and no merge overflows |
| Pcb.HostnameMatters | managed_components/espressif__mdns/mdns_pcb.c:395-398 | why the hostname has to stay: if it went away and came back, which the responder does not let happen, three operations would overflow the list |
| Pcb.ReprobeIsUnion | managed_components/espressif__mdns/mdns_pcb.c:400-419 | probing again while probing gives the union without duplicates, and loses nothing exactly below 256 services |
| Pcb.LifeOfProbe | managed_components/espressif__mdns/mdns_pcb.c:211-259 | three probes, one more for each failed allocation, then three announcements and RUNNING; each is due 250 ms after a probe and 1000 ms after an announcement, however late those were sent |
| Pcb.LifeOfAnnouncement | managed_components/espressif__mdns/mdns_pcb.c:244-254 | an announcement is sent three times, each due a second after the one before was sent |
| Pcb.LifeOnTime | managed_components/espressif__mdns/mdns_send.c:1722 | each sending comes at least a millisecond behind its slot for each one up to it, and with at most L milliseconds of delay each at most L for each; the slots are 250 ms apart while probing and a second apart after |
| Txt.AppendEntry | managed_components/espressif__mdns/mdns_send.c:115-133 | the entry is written behind the index, or nothing if there is no room |
| Txt.CountItems | managed_components/espressif__mdns/mdns_receive.c:181-203 | the number of entries, or an error for one that is cut off |
| Txt.NameLength | managed_components/espressif__mdns/mdns_receive.c:208-219 | the length of the key, an empty one being an error |
| Txt.CreateResult | managed_components/espressif__mdns/mdns_receive.c:224-312 | the parser's result on any bytes |
| Txt.OneByteLate | managed_components/espressif__mdns/mdns_receive.c:281-284 | once the parser is a byte late it never finds the entries that were written |
| Txt.ParsedIff | managed_components/espressif__mdns/mdns_receive.c:224-312 | keys, values and order come back, empty values as none, exactly if only the last item is without an equals sign |
| Txt.RoundTripIff | managed_components/espressif__mdns/mdns_receive.c:224-312 | the items come back unchanged exactly if moreover no value is empty |
| Txt.AllData | managed_components/espressif__mdns/mdns_receive.c:181-203 | any data are entries up to the end, up to an empty one, or up to one that is cut off |
| Txt.ParsedIsFound | managed_components/espressif__mdns/mdns_receive.c:224-312 | of the first two the parser hands out the items in order, without those that have no key, if only the last lacks an equals sign |
| Txt.CutOffSpoils | managed_components/espressif__mdns/mdns_receive.c:193-197 | an entry that is cut off spoils everything in front of it |
| TieBreak.CheckSrvCollision | managed_components/espressif__mdns/mdns_receive.c:438-490 | the verdict compares lengths and then bytes of the two records |
| TieBreak.SrvGreaterWins | managed_components/espressif__mdns/mdns_receive.c:483-489 | the longer record wins, and of equally long ones the one with the greater byte at the first difference |
| TieBreak.WinnerIs | managed_components/espressif__mdns/mdns_receive.c:438-490 | we win exactly if our host is longer or, with equal lengths, priority, weight, port, or the host's letters are ahead, in that order |
| TieBreak.DataDetermines | managed_components/espressif__mdns/mdns_receive.c:458-481 | the record's data determine the claim |
| TieBreak.VerdictsAgree | managed_components/espressif__mdns/mdns_receive.c:438-490 | two hosts reach opposite verdicts, and a draw exactly for identical claims |
| TieBreak.VerdictsAreTransitive | managed_components/espressif__mdns/mdns_receive.c:438-490 | who beats the winner of another also beats that other |
| TieBreak.OneWinner | managed_components/espressif__mdns/mdns_receive.c:438-490 | among any finite set of claims exactly one beats all others, and each of them finds itself beaten |
| TieBreak.CheckTxtCollision | managed_components/espressif__mdns/mdns_receive.c:393-433 | the verdict on TXT records: lengths and then bytes, for any items and any received data; what the buffer held before matters only behind 1460 bytes |
| TieBreak.TxtGreaterWins | managed_components/espressif__mdns/mdns_receive.c:396-432 | of TXT records, too, the longer wins and of equally long ones the greater; an empty one loses |
| TieBreak.StaleMakesNoDifference | managed_components/espressif__mdns/mdns_receive.c:421-432 | as long as the lengths differ or the record fits into a packet, the verdict does not depend on what the buffer held |
| TieBreak.TxtVerdictsAgree | managed_components/espressif__mdns/mdns_receive.c:393-433 | two hosts reach opposite verdicts on TXT records, and a draw exactly for the same data |
| TieBreak.TxtVerdictsAreTransitive | managed_components/espressif__mdns/mdns_receive.c:393-433 | the TXT verdict is transitive |
| Slip.Port.Send | managed_components/espressif__esp-serial-flasher/src/slip.c:85-119 | writing in runs gives the bytewise escaping, or a beginning of it when the port times out |
| Slip.Port.SendCommand | managed_components/espressif__esp-serial-flasher/src/protocol.c:52-64 | a command and its data are one escaped frame between delimiters |
| Slip.Port.ReceiveData | managed_components/espressif__esp-serial-flasher/src/slip.c:33-55 | so many bytes are unescaped into the buffer; timeouts and bad escapes end it |
| Slip.Port.ReceivePacket | managed_components/espressif__esp-serial-flasher/src/slip.c:58-82 | the next frame, of which the beginning is kept; a size of zero asks for 2^32 bytes |
| Slip.EscapeConcat | managed_components/espressif__esp-serial-flasher/src/slip.c:85-119 | escaping is a homomorphism over concatenation |
| Slip.NoDelimiterInside | managed_components/espressif__esp-serial-flasher/src/slip.c:85-119 | escaped data contain no delimiter |
| Slip.DecodeEscaped | managed_components/espressif__esp-serial-flasher/src/slip.c:33-55 | unescaping undoes escaping, byte for byte, and leaves what follows |
| Slip.FrameIsReceived | managed_components/espressif__esp-serial-flasher/src/slip.c:58-82 | a frame that is long enough is received whatever precedes it, its first byte unescaped as it is, and the reading stops behind its delimiter |
| Slip.ReceivedAsSentIff | managed_components/espressif__esp-serial-flasher/src/slip.c:72 | what is received is what was sent exactly if the first byte needs no escaping, or all others are the code of an escape |
| Slip.StreamIsReceived | managed_components/espressif__esp-serial-flasher/src/slip.c:58-82 | successive calls return the frames of a stream in order |
| Slip.StreamIsReceivedAsSent | managed_components/espressif__esp-serial-flasher/src/slip.c:58-82 | they are the beginnings of the payloads if no payload starts with a byte that needs escaping |
| Slip.EscapeIff | managed_components/espressif__esp-serial-flasher/src/slip.c:85-119 | escaping is the one row of bytes without C0 that is read as the data, DB DC as C0, DB DD as DB and others as themselves |
| Slip.AllArrivals | managed_components/espressif__esp-serial-flasher/src/slip.c:33-55 | any bytes are such codes for all that is asked for, or for less and then an escape without a code, or they end |
| Slip.StopsAs | managed_components/espressif__esp-serial-flasher/src/slip.c:33-55 | what is received of each of these, the error and the bytes left included |
| Slip.AnyFrame | managed_components/espressif__esp-serial-flasher/src/slip.c:58-82 | a frame is received exactly as its parts say, whatever bytes they are |
| Slip.AnyOtherFrame | managed_components/espressif__esp-serial-flasher/src/slip.c:58-82 | frames with fewer bytes than asked for, a wrong code, or no end fail with the error of that place |
| DutyCycle.Budget.AddTx | main/culfw_duty_cycle.c:15-36 | a request resets an old window, is granted or refused, and is counted if granted |
| DutyCycle.GrantedIff | main/culfw_duty_cycle.c:28-33 | granted exactly if it fits what remains or its sum overflows 32 bits |
| DutyCycle.LimitIsShare | main/culfw_duty_cycle.c:19-20 | a tenth of an hour on the 433 MHz band, a hundredth on the 868 MHz band |
| DutyCycle.AfterRequest | main/culfw_duty_cycle.c:22-34 | more than an hour after the last reset a new window begins, granted or not, and nothing but what is granted is counted |
| DutyCycle.Budget.Remaining | main/culfw_duty_cycle.c:38-42 | before the next reset exactly the requests for no more than the result are granted, those aside that overflow; nothing remains of an exceeded budget |
| DutyCycle.OneWindow | main/culfw_duty_cycle.c:15-36 | within an hour of a reset no more is granted than was left of the budget exactly if no request overflows |
| DutyCycle.AnyHour | main/culfw_duty_cycle.c:15-36 | in no interval of an hour is more granted than twice the budget, as long as no request has overflowed |
| DutyCycle.EveryHourIff | main/culfw_duty_cycle.c:15-36 | every hour stays within twice the budget exactly if no request overflows when it is made |
| DutyCycle.TwiceIsReached | main/culfw_duty_cycle.c:22-33 | that much is indeed granted within a microsecond |

## Left out

- `mdns_utils_parse_fqdn` after the reader: moving the parts of a name about, and the names of subtypes with five labels.
- The build with reverse lookup: the reader's extra limits for its names.
- DnsRoundTrip.NameReadsBack: the flags are not part of what reads back; `DnsSubtype.MarkedIff` gives the one for `_sub`, and whether a name that reads back is invalid is not said.
- Memory behind the packet: comparisons that read past it see further bytes of one array.
- Allocation failures inside the name functions, the TXT parser and the image decryptor (but for 0 bytes), and errors returned by the cipher library.
- EncryptedImage.Handle.DecryptData: the RSA unwrapping and AES-GCM are parameters, and freeing the key text is not modelled; calls after a complete image whose last block is broken are not, because the cipher takes no update behind one; where the code leaves the length of the output as it is, while the header is unfinished or an allocation fails, the model returns no output.
- GenericDecoder.Decoder.ProcessPulse: counters of decoded packets, signal strength, and the formatting of packets; loading the definitions from JSON, except for the pulse tables.
- The edge interrupt, which drops pulses shorter than 100 or longer than 20000 microseconds, and the queue behind it; the decoders are given the pulses.
- HMS, FHT, Oregon, S300TH and Somfy, and what the reports become for the web page, the USB line and the bridge.
- RfSender.SendRawSlowRf: bytes are given as bytes, not in hexadecimal.
- Switching radio modes, the lamp, and the idle time before a transmission, which is part of the first low pulse.
- RfFs20Alone.Fs20Alone: V1 reports beside the right one, where the pulses are longer than 800, are not described word by word.
- MD5's round arithmetic and big-endian machines.
- Marking packets as queued from the timer, and the action queue between it and the sender.
- TxQueue.RunsAreStable: packets are sent again only after they have been taken, as the code does.
- TxQueue.DeallocAnswers: the lists inside a packet are sequences, so the relinking of their nodes is not modelled; that of the queue itself is.
- TxQueue.Queue.RemoveService: duplicate questions are only removed once, as in the code, and other questions stay.
- Pcb.Interfaces.InitPcbProbe: clearing and filling the transmit queue are recorded as events, and the part of a list behind its length is not represented.
- Pcb.RunsAreSafe: leaving the multicast group is taken to succeed, as the lwIP networking layer does.
- Pcb.LifeOfProbe: how late a packet is sent is a parameter; the queue and the action task that decide it take no part.
- The address collisions for A and AAAA records, and sending goodbye packets.
- DutyCycle.EveryHourIff: changes of the band in between.
