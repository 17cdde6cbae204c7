# ul_ecat: a verified model of the EtherCAT stack

ul_ecat is a small EtherCAT stack in C: a master, a slave with a CoE mailbox server, a driver for the LAN9252
controller chip, and a slave simulator in Python. This project models its protocol core in Dafny, layer on layer, and
proves what the layers promise over all inputs and all runs.

| file | models |
|---|---|
| `Bytes.dfy` | bytes, little-endian words, buffers |
| `Frame.dfy`, `FrameLaws.dfy` | the datagram and Ethernet frame codecs and their round trips |
| `Esc.dfy` | the 4096-byte register mirror and the SyncManager registers |
| `Al.dfy` | the application layer (AL) state machine in the mirror |
| `Mailbox.dfy` | the SM0/SM1 mailbox handshake |
| `Slave.dfy`, `SlaveRuns.dfy`, `SlaveLaws.dfy` | the slave's datagram, PDU and frame processing, laws of whole runs, and laws told by register addresses and bytes |
| `ObjectDictionary.dfy`, `Coe.dfy`, `CoeRuns.dfy`, `SdoLaws.dfy` | the object dictionary and the CoE/SDO server, laws of whole runs, and the answers told by positions and values on the wire |
| `Controller.dfy`, `ControllerRuns.dfy`, `ControllerLaws.dfy` | the slave controller that ties frames to the CoE server, the handshake invariant, and the laws of datagram runs carried over |
| `Link.dfy`, `Upload.dfy`, `ObjectList.dfy` | one frame there and back, and an SDO upload and the object list from end to end |
| `Setup.dfy` | a slave brought from initialisation to mailbox traffic and to OP |
| `MasterQueue.dfy`, `QueueTrip.dfy`, `Master.dfy`, `Dc.dfy` | the master: batching queue and its trip to the slave, AL request and scan, distributed clock |
| `Lan9252Chip.dfy`, `Lan9252.dfy` | the chip as a register machine, and its driver |
| `PythonSim.dfy` | the AL machine and mailbox echo of the simulator |

Code that changes state in place is modelled as methods over arrays and class fields. Each of them is proved equal to a
function on values (`Device.ProcessPduBytes` to `ProcessPdu`, `Server.ProcessFrame` to `Process`, `OnControlWrite` to
`OnControl`, ...), and the laws are then lemmas about those functions. Bytes and words have the ranges of the source's
`uint8_t`, `uint16_t` and `uint32_t`; where the source truncates to 16 bits the model does so explicitly. Bit masks are
written as division and remainder.

Where the code and its documentation or the usual reading of the protocol differ, the model follows the code:

- a transition from OP to PREOP is rejected; OP is left for SAFEOP or INIT;
- the working counter of an answer is 0 or 1, whatever came in;
- a PDU that fails midway keeps the effects of the datagrams before the fault;
- `doc/slave-mental-model.md` leaves the AL state at INIT for now, but the slave already runs the whole state machine;
- a new reply is put into SM1 without a look at whether the earlier one was read;
- an expedited download is accepted during a segmented upload of the same object;
- the counter takes data lengths up to 2047, the parser up to 1498, the slave up to 256.

Some promises do not hold on all inputs; each comes with an input that fails and the exact condition:

- The reply of the object list keeps its length in 16 bits, so its length is right if and only if at most 32763 indices
  are listed (`CoeRuns.ListReplyLength`, with a failing table in `CoeRuns.ListTooLong`); a reply buffer of up to 65541
  bytes rules the bad case out (`CoeRuns.ListFitsBuffer`).
- An object with index 0xFFFF at the head of the table is not listed: the list of a sorted table has every index if and
  only if the first one is not 0xFFFF (`CoeRuns.DistinctIsIndexSet`, failing for `CoeRuns.MarkerNotListed`).
- The master gets the whole object list if and only if 14 bytes and two for each distinct index fit SM1
  (`ObjectList.ListArrivesIff`). A reply longer than SM1 is dropped without a sign (`ObjectList.ListDropped`: two objects,
  16 bytes), and more than 121 indices are cut without a sign (`ObjectList.ListCutShort`: 122 objects, 256 bytes).
- A mailbox reply keeps the AL registers if and only if it puts only bytes over them that are there already
  (`ControllerLaws.DispatchKeepsAlIff`, failing for `ControllerLaws.ReplyOverAlStatus`); buffers clear of the registers
  rule that out.
- Slave and simulator do not stay in step on every sequence of control words and SyncManager configurations. The
  simulator echoes completed mailbox requests, also over its own SyncManager registers (`PythonSim.EchoBreaksStep`), and
  it takes the first two bytes of any write over the control register as the control word
  (`PythonSim.SpanningWriteBreaksStep`). A write keeps them in step if and only if it asks both for the same change of
  the AL state and its echo puts only bytes into those registers that are there already (`PythonSim.InStepNext`,
  `PythonSim.InStepRun`). A control word written at its register, and every configuration, ask for the same change, so
  runs of them stay in step if and only if every echo is harmless (`PythonSim.ControlOrConfigRun`).

## Model

| member | source | states |
|---|---|---|
| FrameLaws.CodecRoundTrip | src/common/ul_ecat_frame.c:40-174 | every list of datagrams, of any length, is counted and parsed back item by item from its encoding |
| FrameLaws.SplitOfEncode | src/common/ul_ecat_frame.c:40-66 | the concatenated encodings of any datagram list split into exactly that list |
| FrameLaws.RecordOfSplit | src/common/ul_ecat_frame.c:125-153 | walking to datagram i finds item i of the split, and nothing beyond its end |
| FrameLaws.LengthBits | src/common/ul_ecat_frame.c:30-33 | the length of a received datagram is the lower 11 bits of its length word |
| FrameLaws.CountIffRecords | src/common/ul_ecat_frame.c:155-174 | a PDU is accepted if and only if it is a concatenation of records, and there is only one such cut |
| FrameLaws.CutUnique | src/common/ul_ecat_frame.c:155-174 | any cut of a PDU into records is the one the walk makes |
| FrameLaws.EncodeOfSplit | src/common/ul_ecat_frame.c:70-123 | re-encoding the parsed datagrams gives the PDU back with the top five bits of every length word cleared |
| FrameLaws.SplitAppend | src/common/ul_ecat_frame.c:155-174 | a well-formed PDU followed by any bytes splits into its datagrams followed by those of the bytes |
| FrameLaws.FrameRoundTrip | src/common/ul_ecat_frame.c:176-230 | a frame yields its payload back, with and without padding behind it |
| FrameLaws.DatagramLayout | src/common/ul_ecat_frame.c:40-66 | where command, index, addresses, length, interrupt word, data and working counter lie in an encoded datagram |
| FrameLaws.FrameLayout | src/common/ul_ecat_frame.c:176-201 | where destination, source, EtherType, length, reserved bytes and payload lie in a frame |
| FrameLaws.PayloadIff | src/common/ul_ecat_frame.c:203-230 | a frame yields a payload if and only if it has the EtherType, the length word of that payload, and holds it |
| FrameLaws.ParseIff | src/common/ul_ecat_frame.c:70-153 | item i of a PDU is parsed if and only if it exists, has at most 1498 bytes and fits the buffer, and is then item i of the split |
| Frame.DgramEncode | src/common/ul_ecat_frame.c:40-66 | writes exactly the encoding at its place in the buffer, zeros for absent data; -1 and nothing written exactly when it is too long |
| Frame.DgramParse | src/common/ul_ecat_frame.c:125-153 | the loop over offsets finds the same datagram as the recursive walk, with the same length limits |
| Frame.CountDatagrams | src/common/ul_ecat_frame.c:155-174 | the loop returns the number of datagrams of the unique split, -1 exactly when there is none |
| Frame.BuildEthFrame | src/common/ul_ecat_frame.c:176-201 | writes the whole frame, whose fields lie as `FrameLaws.FrameLayout` says, or -1 and nothing when it exceeds the buffer or the payload limit |
| Frame.ParseEthFrame | src/common/ul_ecat_frame.c:203-230 | accepts exactly the frames with the EtherCAT type and a length that lies inside the frame, and returns that area |
| Al.OnControlWrite | src/slave/ul_ecat_slave_al.c:46-95 | the in-place AL machine does to the mirror what the decision function says |
| Al.WriteAlStatus | src/slave/ul_ecat_slave_al.c:38-44 | status and code words are stored little-endian, every other byte stays |
| SlaveLaws.ControlByRegisters | src/slave/ul_ecat_slave_al.c:21-95 | by register bytes: which control words do nothing, which are granted, which are refused and with which code, and that no other byte changes |
| SyncManager.FullAfter | src/slave/ul_ecat_slave_mailbox.c:71-113 | setting and clearing MBX_FULL do what they say |
| Mailbox.HeaderRoundTrip | src/slave/ul_ecat_slave_mailbox.c:14-32 | header decoding inverts encoding exactly for fields in range, and encoding inverts decoding on all six-byte headers |
| SlaveLaws.HeaderLayout | src/slave/ul_ecat_slave_mailbox.c:14-32 | where each field of a mailbox header lies |
| Mailbox.HandshakeFrame | src/slave/ul_ecat_slave_mailbox.c:71-113 | the handshake touches only the two status bytes |
| Mailbox.WriteReply | src/slave/ul_ecat_slave_mailbox.c:46-69 | the reply fills the SM1 buffer, padded with zeros, and sets MBX_FULL; it is refused, with nothing changed, exactly when empty, too long or without a usable SM1 |
| Mailbox.AfterSm0Write | src/slave/ul_ecat_slave_mailbox.c:71-92 | MBX_FULL of SM0 is set exactly by a write inside the buffer that ends at its last byte |
| Mailbox.AfterSm1Read | src/slave/ul_ecat_slave_mailbox.c:94-113 | MBX_FULL of SM1 is cleared exactly by a read inside the buffer that ends at its last byte |
| SlaveLaws.FlagsIff | src/slave/ul_ecat_slave_mailbox.c:71-113 | by register bits: a write raises the flag of SM0 if and only if it starts inside that usable buffer and covers its last byte as its own last, a read lowers that of SM1 likewise, and neither touches the other flag |
| SlaveLaws.ReplyTakenIff | src/slave/ul_ecat_slave_mailbox.c:46-69 | SM1 takes a reply if and only if it is usable, lies in the mirror and is long enough for one that is not empty; every byte afterwards |
| SlaveLaws.PairIff | src/slave/ul_ecat_slave_sm.h:24-74 | by register bits: the mailbox test before PREOP passes if and only if both buffers are active, in mailbox mode and not empty |
| Slave.Device.constructor | src/slave/ul_ecat_slave.c:12-19 | a new slave has identity words, AL state INIT and zeros everywhere else |
| Slave.Device.Reset | src/slave/ul_ecat_slave.c:21-26 | a reset brings the initial mirror back and keeps address and position |
| Slave.Device.ProcessOne | src/slave/ul_ecat_slave_pdu.c:23-68 | one datagram in place: the new mirror, the working counter and the answer data of the step function |
| SlaveLaws.AnsweredIff | src/slave/ul_ecat_slave_pdu.c:23-68 | a datagram is answered with 1 if and only if it is an FPRD or FPWR at the nonzero station address or an APWR at the position, inside the mirror; else it comes back with 0 and nothing changes |
| SlaveLaws.WritesAlike | src/slave/ul_ecat_slave_pdu.c:41-62 | writes by station and by position have the same effect but for the flag of SM0 |
| Slave.Device.ProcessPduBytes | src/slave/ul_ecat_slave_pdu.c:70-114 | the loop over the PDU is the fold of the step, also for the mirror left by a PDU that fails midway |
| Slave.Device.ProcessEthernetFrame | src/slave/ul_ecat_slave.c:28-58 | a frame is answered exactly when its PDU is, with the answers of the fold; `SlaveLaws.AnswerGoesBack` says by bytes to whom |
| SlaveLaws.AnswerGoesBack | src/slave/ul_ecat_slave.c:28-58 | an answering frame has the sender of the request as destination, the slave as source, and the length word of the request |
| SlaveLaws.FrameAnsweredIff | src/slave/ul_ecat_slave.c:28-58 | from the bytes of a frame: exactly which frames are answered, with the answers to which datagrams, and which have no effect at all |
| Slave.RepliesFit | src/slave/ul_ecat_slave_pdu.c:70-114 | one answer per datagram, and together they have the length of the request |
| SlaveRuns.PduIsRun | src/slave/ul_ecat_slave_pdu.c:70-114 | the mirror after a PDU is that after the run of the datagrams carried out, on success and on failure |
| SlaveRuns.RunNext | src/slave/ul_ecat_slave_pdu.c:70-114 | a run goes on with the step of its next datagram |
| SlaveRuns.StopsAtOverlong | src/slave/ul_ecat_slave_pdu.c:70-114 | with room for the answers, the run stops exactly at the first datagram longer than 256 bytes |
| SlaveRuns.PduSucceedsIff | src/slave/ul_ecat_slave_pdu.c:70-114 | a PDU is answered if and only if it is well formed, has no datagram over 256 bytes and fits the room |
| SlaveRuns.ReplyInOrder | src/slave/ul_ecat_slave_pdu.c:70-114 | answer k is given in the mirror left by the first k datagrams |
| SlaveRuns.PduReplyShape | src/slave/ul_ecat_slave_pdu.c:70-114 | the answer has the length of the request and keeps command, index, addresses, length and interrupt word of every datagram; the working counter is 0 or 1 |
| SlaveRuns.PduConcatenation | src/slave/ul_ecat_slave_pdu.c:70-114 | processing a concatenation of two PDUs is processing the first and then, unless it stopped, the second |
| SlaveRuns.PdusAreOneRun | src/slave/ul_ecat_slave_pdu.c:70-114 | every run of PDUs, failing ones included, is one run of the datagrams carried out |
| SlaveRuns.LastWriterWins | src/slave/ul_ecat_slave_pdu.c:23-68 | over every run, each byte the slave does not own holds what was last written there by a datagram answered with 1, or its first value |
| SlaveRuns.ReadsSeeLastWrites | src/slave/ul_ecat_slave_pdu.c:23-68 | every answered read returns the bytes last written, also by earlier datagrams of the same PDU |
| SlaveRuns.AlStep | src/slave/ul_ecat_slave_al.c:21-95 | a datagram that spares the AL status keeps it well formed, moves along the transition table or stays, and clears an error exactly by an accepted transition or a matching acknowledge |
| SlaveRuns.AlRunSafe | src/slave/ul_ecat_slave_al.c:21-95 | at every point of every run the state is one of four, the error bit agrees with the error code, and consecutive states are joined by the transition table |
| SlaveRuns.AlHistory | src/slave/ul_ecat_slave_al.c:76-92 | every state beyond INIT was entered through PREOP with a valid mailbox pair at the last entry, and OP through SAFEOP after that |
| SlaveRuns.InitialIsWellFormed | src/slave/ul_ecat_esc.c:18-32 | the initial mirror satisfies the premise of the AL theorems |
| SlaveLaws.InitialZeros | src/slave/ul_ecat_slave.c:12-19 | a new slave has no station address, no usable mailbox, and zeros but for identity and AL status |
| SlaveLaws.SilentUntilAddressed | src/slave/ul_ecat_slave_pdu.c:29-55 | without a station address, no run of datagrams other than APWR is answered or changes anything |
| ObjectDictionary.Lookup | src/slave/ul_ecat_slave_od.c:17-29 | finds the first entry with index and subindex, None exactly when there is none |
| ObjectDictionary.Dictionary.Find | src/slave/ul_ecat_slave_od.c:17-29 | the search loop finds what Lookup says |
| ObjectDictionary.Dictionary.HasIndex | src/slave/ul_ecat_slave_od.c:44-55 | true exactly when some entry has the index |
| ObjectDictionary.Dictionary.Read | src/slave/ul_ecat_slave_od.c:57-74 | returns the stored bytes, or nothing when the object is not readable or does not fit |
| ObjectDictionary.Dictionary.Write | src/slave/ul_ecat_slave_od.c:76-92 | replaces the first bytes of a writable object that is long enough, and changes nothing else |
| Coe.ProcessKeepsValid | src/slave/ul_ecat_slave_coe.c:267-305 | every frame keeps the invariant: an active upload has a length over 4, an offset below it and divisible by 7, and the toggle bit of offset / 7; sizes stay and no reply exceeds its buffer |
| Coe.Server.constructor | src/slave/ul_ecat_slave_coe.c:18-25 | a new server has no upload going on |
| Coe.Server.HandleUploadInit | src/slave/ul_ecat_slave_coe.c:77-127 | the method does what the answer function says; `SdoLaws.UploadAnswer` says by bytes what that is |
| SdoLaws.UploadAnswer | src/slave/ul_ecat_slave_coe.c:77-127 | for every object and request: the abort code of the refusal, the value itself, or the announced length and an open upload |
| Coe.Server.HandleUploadSegment | src/slave/ul_ecat_slave_coe.c:129-168 | the method does what the answer function says; `SdoLaws.SegmentAnswer` says by bytes what that is |
| SdoLaws.SegmentAnswer | src/slave/ul_ecat_slave_coe.c:129-168 | for every state and request: the next seven bytes or the rest with toggle bit, unused count and LAST flag, or an abort that ends the upload on a wrong toggle bit |
| Coe.Server.HandleDownload | src/slave/ul_ecat_slave_coe.c:170-208 | the method does what the answer function says; `SdoLaws.DownloadAnswer` and `SdoLaws.SegmentedDownloadRefused` say by bytes what that is |
| SdoLaws.DownloadAnswer | src/slave/ul_ecat_slave_coe.c:170-208 | a download of a value of 1 to 4 bytes stores exactly these if and only if the object exists, is writable and long enough, and is confirmed; otherwise the abort names the reason and nothing changes |
| SdoLaws.SegmentedDownloadRefused | src/slave/ul_ecat_slave_coe.c:184-188 | a download that is not expedited is refused and changes nothing |
| Coe.Server.HandleSdoInfo | src/slave/ul_ecat_slave_coe.c:214-265 | the object list reply built in place is headers, list type and the listed indices |
| SdoLaws.OtherListsEmpty | src/slave/ul_ecat_slave_coe.c:214-265 | a list of another type than all objects is answered and empty |
| Coe.Server.FillList | src/slave/ul_ecat_slave_coe.c:236-256 | the loop lists every run of the same index once, as far as the buffer goes |
| Coe.Server.ProcessFrame | src/slave/ul_ecat_slave_coe.c:267-305 | dispatch on mailbox type, service and command specifier, and the new server state; the laws of `SdoLaws` say what each kind of frame brings about |
| SdoLaws.AbortTaken | src/slave/ul_ecat_slave_coe.c:300-303 | the master's abort closes the upload, without a reply or a change of the dictionary |
| SdoLaws.UnknownRefused | src/slave/ul_ecat_slave_coe.c:304 | any other command specifier is answered by an abort |
| SdoLaws.NoRoom | src/slave/ul_ecat_slave_coe.c:77-208 | without room for a reply none is sent: a download is still stored and an abort still ends an upload, but a request for data has no effect |
| SdoLaws.OthersIgnored | src/slave/ul_ecat_slave_coe.c:267-282 | short frames, other protocols, other services and other information requests are not answered and change nothing |
| SdoLaws.ActiveFromReplies | src/slave/ul_ecat_slave_coe.c:77-305 | after every run, an upload is open exactly when requests and replies alone say so: opened by a reply, closed by the last segment, a refusal, a wrong toggle bit or an abort |
| SdoLaws.AbortEndsUpload | src/slave/ul_ecat_slave_coe.c:129-303 | after the master's abort and any frames none of which opens an upload, every segment request is refused |
| CoeRuns.PrefixStep | src/slave/ul_ecat_slave_coe.c:116-168 | a segment extends what was collected to a longer prefix of the object; LAST is sent exactly when it is the whole object |
| CoeRuns.PrefixSafety | src/slave/ul_ecat_slave_coe.c:77-305 | over any interleaving of frames, while the object is not written, the segments sent since the upload was opened are the first `offset` bytes of the object |
| CoeRuns.NewServerPrefixSafety | src/slave/ul_ecat_slave_coe.c:18-168 | the same for a new server, from its first frame on |
| CoeRuns.AcceptedSegment | src/slave/ul_ecat_slave_coe.c:129-168 | in an active upload, a request with the expected toggle bit is answered with the next bytes of the object, at least one of them, and LAST exactly when they complete it |
| CoeRuns.DownloadEffect | src/slave/ul_ecat_slave_coe.c:170-208 | no frame but an accepted expedited download changes the dictionary, and that one changes exactly the first bytes of the one object looked up; `SdoLaws.DownloadAnswer` says how many |
| CoeRuns.DownloadThenUpload | src/slave/ul_ecat_slave_coe.c:77-208 | an accepted download is confirmed, and an expedited upload after it returns the bytes the command announces (`SdoLaws.PayloadOf`) and the old rest |
| CoeRuns.ReadOnlyObjectsKept | src/slave/ul_ecat_slave_coe.c:170-208 | no sequence of frames changes an object without the write flag |
| CoeRuns.DistinctIsIndexSet | src/slave/ul_ecat_slave_coe.c:236-256 | the list of a sorted table is increasing, and has exactly the indices of the table if and only if the first one is not 0xFFFF |
| CoeRuns.MarkerNotListed | src/slave/ul_ecat_slave_coe.c:236-256 | the list of a table whose only object has index 0xFFFF is empty |
| CoeRuns.ListReplyItem | src/slave/ul_ecat_slave_coe.c:214-265 | word i of the list reply is the i-th distinct index, for as many as fit |
| CoeRuns.ListReplyLength | src/slave/ul_ecat_slave_coe.c:258-264 | the reply is as long as its indices need and its mailbox length agrees, if and only if at most 32763 indices are listed |
| CoeRuns.ListTooLong | src/slave/ul_ecat_slave_coe.c:258-264 | with 40000 objects and a buffer of 100000 bytes the lengths do not agree |
| CoeRuns.ListFitsBuffer | src/slave/ul_ecat_slave_coe.c:214-265 | a reply buffer of at most 65541 bytes keeps the list within that limit |
| Controller.Device.DispatchMailbox | src/slave/ul_ecat_slave_controller.c:121-150 | a complete request goes to the server, the reply into SM1, and SM0 is emptied; otherwise nothing happens |
| SlaveLaws.RequestReadyIff | src/slave/ul_ecat_slave_controller.c:130-150 | by register bits: a request is complete if and only if SM0 is usable, full and inside the mirror, and it is then its buffer |
| Controller.Device.ProcessFrame | src/slave/ul_ecat_slave_controller.c:165-180 | a frame goes to the slave, and the mailbox is looked at only when it was answered |
| ControllerRuns.WatchStep | src/slave/ul_ecat_slave_mailbox.c:46-113 | every datagram keeps the meaning of both MBX_FULL flags and the content of SM1 |
| ControllerRuns.DispatchStep | src/slave/ul_ecat_slave_controller.c:130-150 | after a dispatch no request waits and SM1 holds the padded reply; without a request nothing changes |
| ControllerRuns.FrameStep | src/slave/ul_ecat_slave_controller.c:165-180 | after an answered frame SM0 is empty, and the server was called once exactly when a write ended at SM0's last byte |
| ControllerRuns.HandshakeRun | src/slave/ul_ecat_slave_controller.c:130-180 | over every run that leaves the layout alone: SM0 is full exactly when a request waits, SM1 exactly when a reply is unread, and its buffer then holds that reply unless the master wrote there |
| ControllerLaws.ControllerIsRun | src/slave/ul_ecat_slave_controller.c:130-180 | every run of frames through the controller, replies included, leaves what the run of their datagrams leaves, outside SM1's buffer and the two status bytes |
| ControllerLaws.ControllerAlSafe | src/slave/ul_ecat_slave_al.c:21-95 | over every run of frames that spares layout and AL status, the AL registers are well formed and those of the datagram run, which follows the transition table |
| ControllerLaws.ControllerLastWriter | src/slave/ul_ecat_slave_pdu.c:23-68 | over every run of frames, a byte that is neither the slave's own nor in SM1's buffer is the one last written by a datagram |
| ControllerLaws.DispatchKeepsAlIff | src/slave/ul_ecat_slave_mailbox.c:46-69 | in any layout, a dispatch keeps the AL registers if and only if its padded reply holds their bytes wherever SM1's buffer covers them |
| ControllerLaws.ReplyOverAlStatus | src/slave/ul_ecat_slave_mailbox.c:46-69 | with SM1 laid over the AL status registers a mailbox reply destroys them |
| ControllerLaws.ServerIsRun | src/slave/ul_ecat_slave_controller.c:130-180 | over every run of frames, in any layout, the CoE server runs through exactly the requests found complete after answered frames |
| ControllerLaws.FramesPrefixSafety | src/slave/ul_ecat_slave_coe.c:77-305 | prefix safety over arbitrary runs of Ethernet frames, with any other traffic between the segments |
| ControllerLaws.FramesKeepReadOnly | src/slave/ul_ecat_slave_coe.c:170-208 | no run of Ethernet frames changes an object without the write flag |
| Link.SingleDatagram | src/master/ul_ecat_master.c:279-308 | a frame with one datagram is answered by one frame with the slave's answer, and changes the mirror by that one step |
| Link.Delivered | src/master/ul_ecat_master.c:279-308 | the master parses that answer back unchanged |
| Link.OverlongRefused | src/slave/ul_ecat_slave_pdu.c:70-114 | a datagram over 256 bytes gets no answer and changes nothing |
| Upload.ExchangeDelivers | src/slave/ul_ecat_slave_controller.c:130-180 | a mailbox round trip (write SM0, read SM1) delivers the request to the server and its padded reply to the master; if no reply fits, the master reads the old content of SM1 |
| Upload.SegmentArrives | src/slave/ul_ecat_slave_coe.c:129-168 | a segment round trip brings the next bytes of the object and the right LAST flag |
| Upload.FetchCompletes | src/slave/ul_ecat_slave_coe.c:129-168 | from any point of an upload, ceil(left / 7) round trips bring the rest of the object |
| Upload.UploadCompletes | src/slave/ul_ecat_slave_coe.c:77-168 | the master reassembles exactly the stored bytes of every readable object, in 1 round trip for up to 4 bytes and 1 + ceil(L / 7) otherwise, is told the length before the first segment, and changes no object |
| Upload.DownloadThenUpload | src/slave/ul_ecat_slave_coe.c:77-208 | after a round trip with any request that is an accepted download, an upload of the object, of any length, brings the downloaded bytes and the old rest |
| Upload.UploadRefused | src/slave/ul_ecat_slave_coe.c:77-115 | a missing, unreadable or empty object is refused in one round trip |
| Upload.DownloadCompletes | src/slave/ul_ecat_slave_coe.c:170-208 | one round trip with the master's download of a value is confirmed and leaves value and old rest if and only if the object exists, is writable and long enough; otherwise an abort arrives and no object changes |
| Upload.DownloadValueThenUpload | src/slave/ul_ecat_slave_coe.c:77-208 | after it, an upload of the object, of any length, brings the value and the old rest |
| ObjectList.ListArrivesIff | src/slave/ul_ecat_slave_coe.c:214-265 | a list round trip decodes, by headers and length field, to the indices listed if that reply fits SM1, and otherwise brings the old content of SM1; it decodes to all distinct indices if and only if 14 bytes and two for each of them fit SM1 |
| ObjectList.ListDropped | src/slave/ul_ecat_slave_mailbox.c:46-69 | with two objects and an SM1 of 16 bytes the reply is dropped and the master reads the old content |
| ObjectList.ListCutShort | src/slave/ul_ecat_slave_coe.c:236-256 | with 122 objects and an SM1 of 256 bytes a well-headed list arrives without its last index |
| ObjectList.FailingSlaves | src/slave/ul_ecat_slave_sm.h:24-74 | slaves with these dictionaries and mailboxes come out of the ordinary configuration |
| Setup.ConfigureMakesReady | src/slave/ul_ecat_slave_sm.h:24-74 | from every mirror, for every station address and pair of disjoint mailbox buffers clear of the registers, three writes meet the premises of the mailbox and upload theorems and keep the AL registers |
| Setup.HandshakeAfterSetup | src/slave/ul_ecat_slave_controller.c:130-180 | from that configuration on, the handshake invariant holds over every run of frames that leaves the layout alone |
| Setup.BringUpReachesOp | src/slave/ul_ecat_slave_al.c:46-95 | after that configuration of a new slave the requests for PREOP, SAFEOP and OP are all granted and leave the slave in OP without error |
| MasterQueue.BatchesConserve | src/master/ul_ecat_master.c:735-769 | the frames concatenate to the queue in order, cut at datagram boundaries only, none empty, none over 1498 bytes |
| MasterQueue.FewestFrames | src/master/ul_ecat_master.c:735-769 | no order-preserving cut into frames needs fewer of them |
| MasterQueue.QueueDelivered | src/master/ul_ecat_master.c:735-769 | a receiver that parses the frames gets the queued datagrams back, in order |
| QueueTrip.CutCarriedOut | src/slave/ul_ecat_slave.c:28-58 | any legal cut of datagrams of at most 256 bytes into frames has the effect of the datagrams in order, and the answering frames hold all their answers in order |
| QueueTrip.QueueCarriedOut | src/master/ul_ecat_master.c:735-769 | so do the frames that the master's queue sends |
| MasterQueue.Queue.PushEncoded | src/master/ul_ecat_master.c:662-679 | a datagram is appended exactly when there are fewer than 32 and it fits the entry |
| MasterQueue.Queue.QueueFprd | src/master/ul_ecat_master.c:681-692 | queues a read with the next index, which counts modulo 256 also when the queue is full |
| MasterQueue.Queue.QueueFpwr | src/master/ul_ecat_master.c:694-705 | queues a write with its data and the next index |
| MasterQueue.Queue.SendBatched | src/master/ul_ecat_master.c:735-769 | sends the frames of the greedy cut and empties the queue; without a socket nothing changes |
| MasterQueue.Queue.FillFrame | src/master/ul_ecat_master.c:746-757 | the inner loop copies the longest run of entries that fits one frame |
| Master.Device.ExchangePayload | src/master/ul_ecat_master.c:279-308 | what a payload does to the slave and what comes back; a payload over 1498 bytes fails without effect |
| Master.Device.Blocking | src/master/ul_ecat_master.c:402-492 | a blocking access carries out its datagram once and returns the slave's answer; over 256 bytes it fails without effect |
| Master.Device.ReadAlStatus | src/master/ul_ecat_master.c:310-322 | returns the AL status word exactly when the slave has the station address, and changes nothing but mailbox status bits |
| Master.Device.PollState | src/master/ul_ecat_master.c:338-367 | 0 exactly when the slave is in the wanted state without error, and then the table says so |
| Master.Device.RequestState | src/master/ul_ecat_master.c:369-387 | 0 if and only if the edge is accepted or the slave is in the state without error; then slave and table agree; on -1 the slave keeps its state and indicates the error; station address and mailbox test stay; a slave with another address is left alone |
| Master.Device.ReadIdentity | src/master/ul_ecat_master.c:558-578 | the four identity words of the slave at the station address |
| Master.Device.ScanNetwork | src/master/ul_ecat_master.c:530-589 | a slave at position 0, with any identity and any earlier address, ends up as the only entry, at 0x1000, with its identity words, and keeps AL status and mailbox test; at another position none is found and nothing changes |
| Master.FoundInitial | src/slave/ul_ecat_esc.c:10-24 | the words a scan finds are the identity the slave was initialised with, whatever its station address |
| Master.Device.ScanNewSlave | src/master/ul_ecat_master.c:530-589 | the scan of a slave that was initialised with an identity, and perhaps addressed before, yields exactly that identity |
| Master.Device.ScanAndStart | src/master/ul_ecat_master.c:369-387 | scan, then requests for PREOP, SAFEOP and OP of a slave in INIT with valid mailboxes: all return 0, and slave and table end in OP |
| Master.ControlWritten | src/slave/ul_ecat_slave_al.c:46-95 | what a control word written over the link does to the AL registers |
| Master.RequestDecided | src/slave/ul_ecat_slave_al.c:46-95 | how the slave decides on request and acknowledge of every state in every state |
| Dc.CorrectionExact | src/master/ul_ecat_master.c:634-658 | a queued correction brings the slave's time, as a signed 64-bit number, exactly to the master's and fits 32 bits; it is queued, and its event posted, exactly when the offset is within the threshold |
| Dc.StateOnlyGrows | src/master/ul_ecat_master.c:593-658 | over every run the state never decreases, so a failure is final |
| Dc.StateFromHistory | src/master/ul_ecat_master.c:607-658 | the machine has failed exactly after an answer over the threshold or 51 cycles without one; before that its counter is the number of cycles since the last answer |
| Dc.SilenceErrorIff | src/master/ul_ecat_master.c:619-631 | the silence error is posted exactly by the 51st silent cycle of a history that was healthy so far |
| Dc.ReadsWhileHealthy | src/master/ul_ecat_master.c:607-632 | after every history a cycle requests the slave's time if and only if the machine has not failed; a silence error carries the last offset |
| Dc.DisabledStaysOff | src/master/ul_ecat_master.c:607-645 | without the clock enabled no time is requested and no cycle has an effect |
| Dc.Worker.Init | src/master/ul_ecat_master.c:593-605 | initial state and the INIT event |
| Dc.Worker.OnCycle | src/master/ul_ecat_master.c:607-632 | the cycle on the fields, the queue and the posted events; what is queued is an FPRD of eight zero bytes at 0x0910, told by fields |
| Dc.Worker.OnResponse | src/master/ul_ecat_master.c:634-658 | the answer on the fields, the queue and the posted events; what is queued is an FPWR at 0x0920 whose data are minus the offset, told by fields |
| Lan9252.ChunkAccepted | controllers/lan9252/src/lan9252.c:123-136 | every chunk is 1, 2 or 4 bytes at a multiple of its size and no longer than what is left |
| Lan9252.ChunkIsLargest | controllers/lan9252/src/lan9252.c:123-136 | a chunk is the largest access size, up to 4, that divides the address and what is left of the next four bytes |
| Lan9252.ChunksTile | controllers/lan9252/src/lan9252.c:138-178 | the chunks cover each byte of the range once, in order, with accesses the chip accepts |
| Lan9252.ChunkCount | controllers/lan9252/src/lan9252.c:138-178 | a transfer of len bytes takes at most len / 4 + 4 accesses |
| Lan9252.WaitNotBusy | controllers/lan9252/src/lan9252.c:75-87 | succeeds exactly when the chip is ready within the poll limit |
| Lan9252.EscRead | controllers/lan9252/src/lan9252.c:138-157 | indirect reads return the flat slice of the register space, by exactly the chunk accesses, and leave the chip ready |
| Lan9252.EscWrite | controllers/lan9252/src/lan9252.c:159-178 | indirect writes change exactly the flat range of the register space and leave the chip ready |
| Lan9252.WriteThenRead | controllers/lan9252/src/lan9252.c:138-178 | a write followed by a read of the same range gives back the written bytes, in registers and in process RAM |
| Lan9252.PdramRead | controllers/lan9252/src/lan9252.c:236-319 | FIFO reads return the flat slice of the process RAM in exactly ceil((address % 4 + len) / 4) words |
| Lan9252.PdramWrite | controllers/lan9252/src/lan9252.c:321-405 | FIFO writes change exactly the flat range of the process RAM in exactly that many words |
| PythonSim.SameDecision | scripts/ecat_slave_sim.py:170-195 | both implementations decide every control word alike in every state |
| PythonSim.InStepNext | scripts/ecat_slave_sim.py:197-214 | a write that spares station address and AL status keeps register bytes and fields in step if and only if it asks both for the same change and its echo is harmless |
| PythonSim.InStepRun | scripts/ecat_slave_sim.py:170-214 | on every sequence of such writes the two stay in step throughout if and only if that holds of each write |
| PythonSim.ControlOrConfigRun | scripts/ecat_slave_sim.py:170-195 | on every sequence of control words and SyncManager configurations the two stay in step throughout if and only if every echo is harmless |
| PythonSim.ControlOrConfigAgrees | scripts/ecat_slave_sim.py:170-195 | a two-byte control word at its register, and any SyncManager configuration, ask both for the same change |
| PythonSim.EchoBreaksStep | scripts/ecat_slave_sim.py:101-128 | two SyncManager configurations and a request for PREOP after which the slave is in PREOP and the simulator in INIT with an error |
| PythonSim.SpanningWriteBreaksStep | scripts/ecat_slave_sim.py:206-212 | a four-byte write over the control register that leaves the slave alone and puts the simulator into error |
| PythonSim.InStepAtStart | scripts/ecat_slave_sim.py:70-83 | slave and simulator start in step |
| PythonSim.ServoSim.MailboxValid | scripts/ecat_slave_sim.py:85-92 | the loop over both SyncManagers agrees with the slave's test of the mailbox pair |
| PythonSim.ServoSim.ProcessAlControl | scripts/ecat_slave_sim.py:170-195 | the fields after a control word |
| PythonSim.EchoByte | scripts/ecat_slave_sim.py:101-117 | byte by byte, the echo is the request cut or zero-filled to the SM1 length, with only the counter nibble incremented modulo 16 |
| PythonSim.EchoDelivered | scripts/ecat_slave_sim.py:101-128 | a completed request leaves its echo in SM1's buffer, wherever that lies, with MBX_FULL of SM1 set and SM0's clear, and every other byte as it was |
| PythonSim.ServoSim.OnSm0Write | scripts/ecat_slave_sim.py:119-128 | a completed request is answered at once and SM0 emptied |
| PythonSim.ServoSim.HandleFpwr | scripts/ecat_slave_sim.py:197-214 | an FPWR datagram on fields and registers |
| PythonSim.OtherStationIgnored | scripts/ecat_slave_sim.py:204-206 | writes to another station change nothing in an addressed simulator |

## Left out

- Null pointers and null object storage: all buffers exist; an absent data buffer is an option value.
- Object storages that overlap each other, and a change of the object dictionary while an upload is going on.
- Mailbox handlers other than the default CoE handler, and reply buffers of the application.
- Sockets, SPI transfers that fail, threads, locks and sleeping: the master talks to one slave over a link that delivers every frame; a cycle of the worker is one step.
- Stale, lost or duplicated frames: the master does not match indices, so every request gets its own answer here.
- Rings of several slaves: the slave overwrites the working counter, so the code does not support them.
- The event loop and its queue: posted events are a list. Callbacks, printing and environment variables are left out.
- The decoding of received batches into clock answers (`process_rx_datagrams`): an answer arrives as a pair of times.
- ESI files, the command line, the TCP harness, RTOS ports, polling for changed outputs, and generated tables.
- Segmented download, FMMU and process-data SyncManagers, which the code does not implement.
- The FIFO fill level of the LAN9252 and its underrun: the driver reads the level but does not depend on it; the chip delivers a word on every access once data are available.
- Overflow of the counter's 32-bit `int` and of `size_t`, which no frame is long enough for.
- Lan9252.EscRead: for ranges inside the 0x1000 bytes of the register space; beyond it the chip's behaviour is not known.
- Lan9252.EscWrite: for ranges inside the 0x1000 bytes of the register space; beyond it the chip's behaviour is not known.
- Lan9252.PdramRead: for ranges inside the 0x10000 bytes of process RAM; beyond it the chip's behaviour is not known.
- Lan9252.PdramWrite: for ranges inside the 0x10000 bytes of process RAM; beyond it the chip's behaviour is not known.
- Dc.Worker.OnResponse: where the signed 64-bit difference of the two times overflows, which C leaves undefined, the model takes the exact difference.
- PythonSim.InStepRun: for FPWR writes at the station address; the simulator carries out APWR only to assign that address, and answers FPWR to any station before it has one.
