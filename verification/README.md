# HORACE, modelled and verified

HORACE captures events, frames them as self-describing records of attributes, chains the records
by hash and signs them, spools them to numbered files, and forwards the files to a destination,
deleting each when the destination has acknowledged it. This project models that path in Dafny and
proves what each part of it is for. `dafny verify dfyconfig.toml` checks everything.

Code which works by changing things step by step (readers, writers, parsers, builders) is modelled
by classes and loops, each proved to compute a function of its input or of its old state; the
properties are then lemmas about those functions. The two protocols which several threads or
processes take part in are modelled as state machines over their steps, with lemmas about every run.

## What is proved

* **Forwarding** (`Spool`, `SpoolReader`, `Sessions`, `Forwarding`, `ForwardingGap`,
  `ForwardingProgress`, `Delivery`). The writer, the reader, the forwarder and the destination take
  steps in any order, and any of them may be stopped and restarted at any point. In every run an
  event has been accepted exactly if it is in a spoolfile or was handed to the destination before it
  was last synchronised; a spoolfile is deleted only once all of its events are durable; file numbers
  are never reused; the reader and the destination stay in lockstep, so that every acknowledgement
  passes the checks made of it; and replay adds nothing at a destination keyed on session timestamp
  and sequence number. From a state which has been reached, forwarding can catch up with the writer
  under an exact condition, which holds after every run without a reset in the process.
* **Capture** (`Capture`, `CaptureIo`, `Signing`, `SigningProgress`, `SigningSessions`). The hash of
  an event fixes the session record and every event up to that one; the hash of the end record fixes
  the whole session. Whatever the interleaving of the sources, the signer and the main thread, what is
  written is one chain; each signature is of an event already written, over its hash in the chain;
  signed sequence numbers increase (until they wrap round); no wake-up of the signer is lost; no state
  is a deadlock; stopping the signer always succeeds.
* **Codec** (`Octets`, `OctetWriters`, `OctetReaders`, `Base128`, `Base128Io`, `FixedWidth`,
  `Attributes`, `Codec`, `CodecIo`, `Records`, `WireFormat`, `SessionBuilders`). The octets of each type of
  attribute mean what they should, and are accepted exactly if they do; records round trip while the
  record being parsed extends the context which types it; the parser consumes exactly the stated
  lengths; session records are self-describing; buffering refines a plain stream.
* **Filter compiler** (`Prefixes`, `AddressFilters`, `FrameLayouts`). Classic BPF is given an
  interpreter, and the compiled program rejects exactly the frames, as they are laid out, with an
  address which agrees bit by bit with a listed netblock.
* **Leap second correction** (`LeapSeconds`). A clock which repeats a second is corrected to true
  time, over any run of queued readings, under an exact condition on when they were taken.
* **Parsers** (`Digits`, `Netblocks`, `NetblockIo`, `SpoolNames`, `DirectoryNames`, `Syslog`, `SyslogIo`,
  `SyslogTimestamps`, `SyslogComposition`). The netblock parsers accept exactly the forms of
  RFC 4291; the scanner accepts a directory exactly if one width explains all the names in it; a
  syslog message composed as its standard says is read as what it was composed of, and any message is
  rebuilt from the fields read from it.

## Where the code does not do what it says

* `endpoints/horace+file/file_session_writer.cc:68-70` expects that a spoolfile always accepts one record besides its
  session record. It does not: `Spool.OversizedRecordOccurs`, `Spool.RefusedExactly`.
* `horace/session_reader.h:34-39` says that after a reset a reader behaves as if recreated. With a
  spoolfile open the file reader goes on to the one after it instead (`SpoolReader.ResetSkips`);
  `SpoolReader.ResetReplaysExactly` says for which readers the promise is kept. If there is only one
  spoolfile then the reader is stuck from there on: `SpoolReader.OneFileThenReset`,
  `SpoolReader.ResetsDoNotHelp`. Nothing is lost by this, but a gap may be left in the file
  numbers (`ForwardingGap.GapReachable`, `Forwarding.AcknowledgedContiguous`), and with a gap forwarding
  can never catch up, whatever is restarted: `ForwardingProgress.GapBlocks`.
* `horace/simple_session_writer.cc:114-118` stores an event before finding that it has no sequence number.
  The event is refused, but is in the spoolfile, and forwarding never gets past it:
  `ForwardingProgress.UnnumberedBlocks`.
* `man/man1/horace-capture.1:78-81` says that each hash goes into the record after. If a write is
  interrupted by termination then the hash of the event before has already been moved into the
  record which was not written (`horace/new_session_writer.cc:141-143`), so that the end record does
  not include it: `CaptureIo.EndAfterInterruption`.
* `horace/address_filter.cc:132-134` disregards the IPv6 list: `AddressFilters.AddressFilter.Empty`.
  Adding to a filter which has been compiled leaves the old program in place
  (`AddressFilters.AddressFilter.Compile`), which then accepts the frames that only the additions
  exclude: `AddressFilters.StaleProgram`, `AddressFilters.StaleProgramAccepts`.
* `horace/leap_second_corrector.cc:73-75` says that the outcome is assured if the reference follows the
  timestamp by less than one second. It must be a microsecond less than that, as readings are in
  microseconds: `LeapSeconds.CorrectionExact`, `LeapSeconds.BoundIsSharp`.
* `horace/timestamp_attribute.cc:24` refuses on reading what `length()` gives for a time of zero, and a time
  before the epoch does not survive either: `Codec.TimestampRoundTrip`.
* `endpoints/syslog+udp/syslog_parser.cc:279-312` drops a version number other than 1: `Syslog.MessageRebuilds`.
  An hour may be as high as 59 (line 171), and the name of a month be cut short by a NUL (line 151);
  there is nothing else in which what is accepted differs from the timestamps of RFC 3164:
  `SyslogTimestamps.Accepted`, `SyslogTimestamps.MeetsRfc3164`.
* `endpoints/syslog+udp/syslog_parser.cc:202-246` stops at the end of the first element of structured data,
  of which section 6.3 of RFC 5424 allows any number: `SyslogComposition.ElementsLeft`.

## Model

| member | source | states |
|---|---|---|
| OctetWriters.OctetWriter.Write | horace/octet_writer.h:121-126 | octets flushed followed by octets buffered are what had been written before, and then this octet |
| OctetWriters.OctetWriter.WriteBlock | horace/octet_writer.cc:11-36 | likewise for a block of any size, whether it goes into the buffer or past it |
| OctetWriters.OctetWriter.Flush | horace/octet_writer.cc:42-48 | everything written has reached the sink, in order, and the buffer is empty |
| OctetWriters.OctetWriter.WriteUnsigned | horace/octet_writer.cc:50-61 | the big-endian octets of a value at a given width are appended (two's complement if negative) |
| OctetReaders.OctetReader.Refill | horace/octet_reader.cc:13-20 | what remains to be read is unchanged; there is an end of file exception exactly if the source is exhausted |
| OctetReaders.OctetReader.Read | horace/octet_reader.h:145-150 | returns the next octet of the stream however the source chunks it, or throws at its end |
| OctetReaders.OctetReader.ReadBlock | horace/octet_reader.cc:22-56 | returns the next n octets of the stream, however chunked and whatever was buffered, or throws if there are fewer; the loop terminates |
| Base128.EncodeUnsignedMeans | horace/unsigned_base128_integer.cc:50-62 | the encoding is complete (continuation bits right) and has the value encoded |
| Base128.EncodeSignedMeans | horace/signed_base128_integer.cc:68-95 | likewise for signed integers |
| Base128.EncodeUnsignedMinimal | horace/unsigned_base128_integer.cc:14-25 | no other octets with that value are fewer |
| Base128.EncodeSignedMinimal | horace/signed_base128_integer.cc:15-30 | likewise for signed integers |
| Base128.DecodeUnsignedExact | horace/octet_reader.cc:95-109 | any complete octets, minimal or not, decode to their value, and overflow is thrown exactly if that is not below 2^64 |
| Base128.DecodeSignedExact | horace/octet_reader.cc:129-143 | likewise, overflow being thrown exactly if the value is outside the signed 64-bit range |
| Base128.DecodeUnsignedIncomplete | horace/octet_reader.cc:95-109 | an integer cut short is reported as the end of the file, or as overflow if there was no room for seven more bits |
| Base128.DecodeSignedIncomplete | horace/octet_reader.cc:129-143 | the same for signed integers |
| Base128.UnsignedRoundTrip | horace/octet_reader.cc:95-109 | decoding what was encoded gives it back and stops exactly at its end |
| Base128.SignedRoundTrip | horace/octet_reader.cc:129-143 | likewise for signed integers |
| Base128Io.UnsignedLength | horace/unsigned_base128_integer.cc:14-25 | the loop computes the number of octets in the encoding (for the whole 64-bit range, a shift by the full width or more giving zero) |
| Base128Io.SignedLength | horace/signed_base128_integer.cc:15-30 | likewise for signed integers |
| Base128Io.WriteUnsignedBase128 | horace/unsigned_base128_integer.cc:50-62 | the loop writes exactly the encoding |
| Base128Io.WriteSignedBase128 | horace/signed_base128_integer.cc:68-95 | likewise, including the leading octet of an encoding longer than 63 bits |
| Base128Io.ReadUnsignedBase128 | horace/octet_reader.cc:111-127 | the loop decodes as specified on every octet string, overflows when specified, and counts the octets it uses |
| Base128Io.ReadSignedBase128 | horace/octet_reader.cc:145-161 | likewise for signed integers |
| Base128Io.ReadSignedTwosComplement | horace/signed_base128_integer.cc:32-66 | the other decoder, with its own overflow test on an unsigned accumulator, agrees with the first on every octet string |
| FixedWidth.ComputeUnsignedWidth | horace/unsigned_integer_attribute.cc:45-53 | the loop computes the least width which holds the value |
| FixedWidth.ComputeSignedWidth | horace/signed_integer_attribute.cc:45-57 | likewise with room for the sign, zero taking no octets |
| FixedWidth.WidthAtMostEight | horace/signed_integer_attribute.cc:22-31 | a width so computed is never one which the parser refuses |
| FixedWidth.UnsignedFixedRoundTrip | horace/octet_reader.cc:62-74 | reading at the width written gives back any value which fits in it |
| FixedWidth.SignedFixedRoundTrip | horace/octet_reader.cc:76-93 | reading at the width computed gives back every signed value |
| FixedWidth.ReadUnsigned | horace/octet_reader.cc:62-74 | the loop, with its overflow test, decodes as specified |
| FixedWidth.ReadSigned | horace/octet_reader.cc:76-93 | the loop, with its test of the top nine bits, decodes as specified |
| WireFormat.WrittenUnsigned | horace/octet_writer.cc:50-61 | the octets written stand for the integer, most significant first, if it fits |
| WireFormat.WrittenSigned | horace/octet_writer.cc:50-61 | likewise in two's complement |
| WireFormat.UnsignedRead | horace/octet_reader.cc:62-74 | any octets are read as the number they stand for, and overflow is thrown exactly if that is not below 2^64 |
| WireFormat.SignedRead | horace/octet_reader.cc:76-93 | likewise in two's complement, for the signed 64-bit range |
| WireFormat.UnsignedShortest | horace/unsigned_integer_attribute.cc:45-53 | no octets which stand for the integer are fewer than the width computed |
| WireFormat.SignedShortest | horace/signed_integer_attribute.cc:45-57 | likewise in two's complement |
| Attributes.AttridLessMeans | horace/attribute_list.cc:33-39 | the bit manipulation on unsigned 64-bit integers puts reserved IDs first, each group in ascending order of absolute value, and tells all IDs apart |
| Attributes.InsertSorted | horace/attribute_list.cc:154-181 | insertion at the upper bound keeps a list in canonical order and adds exactly the one attribute |
| Attributes.InsertStable | horace/attribute_list.cc:154-181 | insertion is stable: attributes with the same ID stay in the order in which they were inserted |
| Attributes.FindOneAttribute | horace/attribute_list.cc:133-152 | the loop returns an attribute exactly if there is one and only one with the ID |
| WireFormat.FoundExactly | horace/attribute_list.cc:133-152 | an attribute of a list is found if and only if no other attribute there has its ID |
| WireFormat.FoundByType | horace/attribute_list.h:104-112 | and with a value only if it is of the type asked for |
| Attributes.ContentLengthExact | horace/compound_attribute.cc:36-54 | the length written ahead of an attribute is the number of octets which follow, at every level of nesting |
| Attributes.ListLengthExact | horace/attribute_list.cc:113-122 | the length of a list is the number of octets which it is written as |
| Codec.ParseContent | horace/attribute.cc:22-45 | if parsing an attribute succeeds then exactly the stated length has been consumed; the recursion terminates on every octet string |
| Codec.ParseOne | horace/attribute_list.cc:96-101 | an attribute with its header, ID and length narrowed to 32 bits, takes at least two octets and leaves a suffix of the input |
| Codec.ParseList | horace/attribute_list.cc:91-111 | if parsing a list succeeds then exactly the stated length has been consumed |
| Codec.RecordAttrsExact | horace/record.cc:30-58 | likewise for the attributes of a record |
| Codec.ParsedListSorted | horace/attribute_list.cc:91-111 | whatever order attributes arrive in, a list which has been parsed is in canonical order |
| Codec.ParsedRecordSorted | horace/record.cc:30-58 | likewise for the attributes of a record, as definitions among them take effect |
| Codec.HeaderRoundTrip | horace/attribute_list.cc:96-98 | an ID and a length, written, read as 64-bit integers and narrowed to 32 bits, are unchanged if and only if the length is below 2^31 (or within 2^31 of 2^64) |
| Codec.TimestampRoundTrip | horace/timestamp_attribute.cc:20-40 | a timestamp is read back as written if and only if its seconds are positive; otherwise it is refused |
| Codec.ContentRoundTrip | horace/attribute.cc:22-45 | an attribute of any type, nested to any depth, which is well typed under the context is read back as written |
| Codec.OneRoundTrip | horace/record.cc:31-36 | likewise with its header, which states the length of what follows |
| Codec.ListRoundTrip | horace/attribute_list.cc:91-111 | a list in canonical order is read back as written, and the reader stops exactly at its end |
| WireFormat.ContentMeans | horace/timestamp_attribute.cc:98-107 | what the content of each type of attribute is: integers as the numbers they stand for, seconds ahead of four octets of nanoseconds, one or zero for a flag, and strings as they are |
| WireFormat.AttrWritten | horace/attribute_list.cc:183-187 | an attribute is written as its ID, the number of octets of its content, and those |
| WireFormat.RecordWritten | horace/record.cc:61-65 | a record is written as its channel, the number of octets of its attributes, and those in order |
| WireFormat.LeafRead | horace/attribute.cc:25-44 | for each type number, exactly which content is accepted and what value it is read as |
| WireFormat.LeafShort | horace/octet_reader.cc:35-52 | simple content of a permitted length which the input is too short to hold is refused as the end of the file, whatever the type |
| WireFormat.Refused | horace/attribute_list.cc:104-108 | an attribute without a known type, one which runs past the end of its list, or a definition which cannot be accepted is refused as invalid, and the context is left as it was |
| WireFormat.ReservedTypes | horace/session_context.cc:43-61 | the types of the eighteen reserved attributes, and that no other negative ID has one |
| WireFormat.DefinitionsRead | horace/session_context.cc:70-87 | which sub-attributes of a definition are the ID, the label and the type, and what is declared by them |
| Records.RecordAttrsRoundTrip | horace/record.cc:30-58 | likewise for attributes each of which may extend the context that types those after it |
| Records.RecordRoundTrip | horace/record.cc:27-65 | a record in canonical order, well typed under the context as it extends it, is read back as written, leaving the reader at its end and the context as its definitions make it |
| Records.EncodeRecordInjective | horace/record.cc:61-65 | records which can be stored under one context have the same octets only if they are equal |
| Records.ReplayRoundTrip | endpoints/horace+file/file_session_reader.cc:87-102 | reading a whole file of records, each under the context left by those before it, gives the records written |
| CodecIo.SessionContext.HandleAttrDef | horace/session_context.cc:70-79 | both maps gain exactly the definition, or an exception leaves them as they were |
| CodecIo.SessionContext.HandleChannelDef | horace/session_context.cc:81-87 | likewise for a channel |
| CodecIo.ComputeListLength | horace/attribute_list.cc:113-122 | the loop computes the length of the list |
| CodecIo.WriteAttr | horace/compound_attribute.cc:50-54 | an attribute of any type is written as specified |
| CodecIo.WriteList | horace/attribute_list.cc:183-187 | the loop writes the attributes in order |
| CodecIo.WriteRecord | horace/record.cc:61-65 | a record is written as specified |
| CodecIo.ParseLeaf | horace/attribute.cc:25-44 | each simple type is parsed from the buffered reader as specified, with the same failures |
| CodecIo.ParseAttr | horace/attribute.cc:22-45 | the type is looked up, and the attribute parsed from the buffered reader as specified |
| CodecIo.ParseAttrList | horace/attribute_list.cc:91-111 | the loop parses a list from the buffered reader as specified, including the check for overrun |
| CodecIo.HandleDefinition | horace/record.cc:37-49 | a definition at the top level of a record takes effect at once; nothing else changes the context |
| CodecIo.ParseRecordBody | horace/record.cc:30-58 | the loop parses the attributes as specified and leaves the session context as specified, even if it throws part way |
| CodecIo.ParseRecordFrom | horace/record.cc:27-59 | likewise for a whole record |
| SessionBuilders.SessionBuilder.constructor | horace/session_builder.cc:19-35 | the list holds the protocol version (if any), time system, source and timestamp in canonical order, and declares nothing, whatever the strings and the time |
| SessionBuilders.SessionBuilder.DefineAttribute | horace/session_builder.cc:37-48 | IDs are allocated in order from zero, and the list holds the new definition in its canonical place |
| SessionBuilders.SessionBuilder.DefineChannel | horace/session_builder.cc:50-60 | likewise for a channel |
| SessionBuilders.SessionBuilder.DefineHash | horace/session_builder.cc:62-65 | the algorithm goes in its canonical place, which does not disturb the definitions |
| SessionBuilders.SessionBuilder.DefineKeypair | horace/session_builder.cc:67-73 | likewise the algorithm and public key |
| SessionBuilders.SessionBuilder.Build | horace/session_builder.cc:75-77 | if the attributes can be read back at all (lengths below 2^31, times after the epoch, sub-attributes of the types declared) then the record built parses from an empty context to an equal record, and yields exactly the types and labels declared |
| SessionBuilders.HoldsInsertAttrDef | horace/session_builder.cc:37-48 | inserting a definition places it after every earlier one and before every channel definition |
| SessionBuilders.HoldsInsertChanDef | horace/session_builder.cc:50-60 | inserting a channel definition places it after every earlier one and every attribute definition |
| SessionBuilders.DefinitionsState | horace/session_builder.cc:37-60 | which sub-attributes a definition is given, and that the others of a channel are as they were |
| SessionBuilders.SelfDescribing | horace/session_builder.cc:37-77 | for every sequence of declarations whose sub-attributes have the types declared, the session record describes itself |
| Sessions.ReplyStates | horace/simple_session_writer.cc:62-72 | a reply to a sync record states exactly the source, timestamp and sequence number which it was made from |
| Spool.SpoolfileWriter.Write | endpoints/horace+file/spoolfile_writer.cc:44-65 | the size tracked grows by the octets of the record; a record is refused exactly if it is not the first and would exceed the capacity, and then nothing changes |
| Spool.RecordLength | endpoints/horace+file/spoolfile_writer.cc:47-51 | the size worked out in advance is the number of octets written |
| Spool.SizeIsOctets | endpoints/horace+file/spoolfile_writer.cc:60-62 | the size tracked is the number of octets in the file |
| Spool.FileSessionWriter.BeginSpoolfile | endpoints/horace+file/file_session_writer.cc:35-49 | the next file number is used for a file holding just the session record, which must not exist yet |
| Spool.FileSessionWriter.WriteRecord | endpoints/horace+file/file_session_writer.cc:51-74 | a record goes into the current file, or if it is full into a new one |
| Spool.FileSessionWriter.ProcessSessionRecord | horace/simple_session_writer.cc:30-55 | a session record starts a session, or repeats the current one, or is refused, and the state is as specified in each case |
| Spool.FileSessionWriter.ProcessSyncRecord | horace/simple_session_writer.cc:62-72 | the reply is made from the current session record and sequence number, or an exception leaves the state alone |
| Spool.FileSessionWriter.Write | horace/simple_session_writer.cc:89-123 | each kind of record has the effect specified on the session state and on the files, with the same refusals; what that is, the next five rows say |
| Spool.StoredMeans | endpoints/horace+file/file_session_writer.cc:94-117 | a record is stored if and only if it is an event, end record or signature, there is a session (which has not ended, for an event), and it fits in the current spoolfile or in a new one beside the session record |
| Spool.ContentWritten | horace/simple_session_writer.cc:57-60 | such a record is accepted if and only if it is stored and (for an event) has a sequence number; an end record ends the session, and an event moves the sequence number on to the one after its own |
| Spool.SessionWritten | horace/simple_session_writer.cc:30-55 | a session record from the right source with a new timestamp starts a session at sequence number zero in a new spoolfile; the same one again does nothing; any other is refused |
| Spool.OthersWritten | horace/simple_session_writer.cc:101-122 | a sync record makes a reply, any other record is disregarded, and neither changes the files |
| Spool.ReplyMade | horace/simple_session_writer.cc:62-72 | a reply can be made if and only if the session record has a source and a timestamp, and states those and the sequence number reached |
| Spool.WriteKeepsPartition | endpoints/horace+file/file_session_writer.cc:35-74 | each write keeps the files a partition of what has been stored: each starts with the session record in effect, its size is as tracked, and it is within capacity or holds only its session record |
| Spool.SpoolPartition | endpoints/horace+file/file_session_writer.cc:35-74 | for every sequence of writes, dropping the leading session records and joining the files gives, in order, exactly the events, end records and signatures for which there was a session and room |
| Spool.RefusedExactly | endpoints/horace+file/spoolfile_writer.cc:53-58 | a record is refused for want of space if and only if it fits neither in the current file nor in a new one beside the session record |
| Spool.OversizedRecordRefused | endpoints/horace+file/file_session_writer.cc:60-73 | a record larger than the capacity is refused, at the cost of a file number and a file holding only a session record, contrary to the comment there |
| Spool.OversizedRecordOccurs | endpoints/horace+file/file_session_writer.cc:60-73 | whatever the capacity there is a session and an event with which that happens, starting from an empty directory |
| SpoolReader.FileSessionReader.TryRead | endpoints/horace+file/file_session_reader.cc:57-112 | one attempt at reading has the outcome and the effect specified; the end of a file counts only if the next was seen beforehand |
| SpoolReader.FileSessionReader.HandleSync | endpoints/horace+file/file_session_reader.cc:114-144 | unless a request is outstanding and the reply states the source, timestamp and sequence number which the reader has reached, nothing changes; otherwise the file is deleted and the next one opened |
| SpoolReader.AcknowledgesExactly | endpoints/horace+file/file_session_reader.cc:114-144 | for every reader, directory and reply, exactly when an acknowledgement succeeds, and everything that it changes |
| SpoolReader.ReadsInOrder | endpoints/horace+file/file_session_reader.cc:87-102 | the records of a file are read in order, and the timestamp and sequence number reached are those of the latest session record and event |
| SpoolReader.SyncsAtEnd | endpoints/horace+file/spoolfile_reader.cc:19-35 | a sync request is made once, at the end of a file, and only if the next file had been seen at an earlier attempt |
| SpoolReader.OpensFirst | endpoints/horace+file/file_session_reader.cc:57-75 | the first file opened is the one which a scan finds, and the one with the number after that is taken to be next |
| SpoolReader.ResetSkips | endpoints/horace+file/file_session_reader.cc:160-169 | with a file open, a reset leads to the file after it being opened, not to the replay which is documented |
| SpoolReader.ResetReplaysExactly | horace/session_reader.h:34-39 | for every reader and every directory with files in it, a reset leads to the replay documented if and only if the directory has still to be scanned or the number gone back to is that of the first file |
| SpoolReader.ResetReplaysAtFirst | endpoints/horace+file/file_session_reader.cc:160-169 | so for a reader which is new or has the first file open, if and only if it has no file open |
| SpoolReader.ResetsDoNotHelp | endpoints/horace+file/file_session_reader.cc:57-75 | a reader led past the last file, with none open, stays stuck while no more files are written: each further attempt fails and leaves it two numbers further on, whatever resets there are in between |
| SpoolReader.OneFileThenReset | endpoints/horace+file/file_session_reader.cc:160-169 | that is what becomes of a reader which opens the only file and is then reset |
| Forwarding.RunKeepsInv | src/horace-forward.cc:107-166 | the invariant from which the results below follow holds after every sequence of steps, with restarts and resets anywhere |
| Forwarding.StepKeepsInv | src/horace-forward.cc:107-166 | each step of the writer, reader, forwarder or destination, and each restart, keeps the invariant |
| Forwarding.NothingLostOrInvented | man/man1/horace-forward.1:33-34 | in every run an event has been accepted if and only if it is in a spoolfile or was handed to the destination before that was last synchronised; and the destination is handed nothing else |
| Forwarding.DeletedOnlyWhenDurable | endpoints/horace+file/file_session_reader.cc:121-138 | whenever a spoolfile disappears, that was by acknowledgement, and every event in it was already durable |
| Delivery.NoDuplicates | man/man1/horace-forward.1:33-34 | if what is written is events as captured (with hashing on or off, and with or without interruptions) of sessions with distinct timestamps and at most 2^64 events each, which bring no sequence number of their own, then in every run, whatever is replayed, no two different events handed to the destination have the same session timestamp and sequence number |
| Delivery.CapturedRecords | horace/new_session_writer.cc:137-156 | the records of the chain of hashes, and likewise records without hashes if there is no hash function, are among the events as captured |
| Delivery.RunFed | horace/simple_session_writer.cc:38-45 | in every run each event accepted is one of the session in progress, and is taken with the timestamp of that session |
| Delivery.StampedSeqnum | horace/new_session_writer.cc:137-140 | the record of the k-th event of a session states sequence number k, modulo 2^64, whatever hash it includes |
| Forwarding.DiskAfter | endpoints/horace+file/file_session_reader.cc:134-138 | only a write or an acknowledgement changes the files, and an acknowledgement deletes exactly the file which was open |
| Forwarding.NumbersNeverReused | endpoints/horace+file/file_session_writer.cc:19-33 | each new spoolfile has a number greater than any ever used, even by a writer which has just rescanned the directory |
| Forwarding.HighestNeverDeleted | endpoints/horace+file/spoolfile_reader.cc:19-35 | the highest-numbered spoolfile is never deleted |
| Forwarding.Lockstep | endpoints/horace+file/file_session_reader.cc:87-102 | between records, the session timestamp and sequence number of the reader are those of the destination, and no reply is waiting |
| Forwarding.ReplyMatches | endpoints/horace+file/file_session_reader.cc:121-132 | the reply which the destination gives to a sync record is the one which the reader will accept |
| Forwarding.AcknowledgementsSucceed | endpoints/horace+file/file_session_reader.cc:114-144 | in every run, every acknowledgement passes the checks and the next file can be opened |
| Forwarding.FinishedFileIsReleased | src/horace-forward.cc:120-143 | once a file has been copied and there is another after it, five steps make it durable, delete it and open the next |
| Forwarding.SpoolfilesContiguous | endpoints/horace+file/filestore_scanner.cc:73-78 | in every run without a reset inside the process, the file numbers in use are one interval, and the reader works from its lower end |
| Forwarding.AcknowledgedContiguous | endpoints/horace+file/file_session_reader.cc:134-138 | an acknowledgement leaves the numbers in use contiguous if and only if there is no file just before the one it deletes |
| Forwarding.SkippingLeavesGap | endpoints/horace+file/file_session_reader.cc:160-169 | acknowledging a file when there is one just before it, as there may be after a reset, leaves a gap |
| ForwardingGap.GapReachable | endpoints/horace+file/file_session_reader.cc:160-169 | a run in which that happens: three sessions are written, and the reader is reset with the first file open and then acknowledges the second |
| ForwardingProgress.CatchesUpExactly | man/man1/horace-forward.1:33-34 | from every state which can be reached, some further steps leave no spoolfile but the last, if and only if every spoolfile but the last has one directly after it and can be read to its end (its session record has a timestamp and its events have sequence numbers) |
| ForwardingProgress.CatchesUp | src/horace-forward.cc:80-166 | then steps of the forwarder alone are enough, beginning with a restart, and everything accepted is durable but for what is in the last spoolfile |
| ForwardingProgress.AlwaysAbleToCatchUp | src/horace-forward.cc:80-166 | from every state reached without a reset inside the process, whatever has been stopped and restarted, forwarding can catch up so, provided that session records have timestamps and events sequence numbers |
| ForwardingProgress.DrainableMeans | endpoints/horace+file/spoolfile_reader.cc:19-35 | that each spoolfile but the last has one directly after it is to say that the numbers in use are contiguous |
| ForwardingProgress.StuckForEver | endpoints/horace+file/spoolfile_reader.cc:19-35 | a spoolfile which is not the last, and has none directly after it or cannot be read to its end, is never deleted, whatever steps are taken |
| ForwardingProgress.SinkAccepts | horace/simple_session_writer.cc:89-123 | the destination accepts each record of a spoolfile, as no event comes after an end record there |
| ForwardingProgress.GapBlocks | endpoints/horace+file/file_session_reader.cc:160-169 | after the run which leaves a gap, forwarding never catches up |
| ForwardingProgress.UnnumberedBlocks | horace/simple_session_writer.cc:114-118 | an event without a sequence number is stored before it is refused, and forwarding never gets past it |
| SpoolNames.ParseName | endpoints/horace+file/spoolfile.cc:15-37 | a name is accepted exactly if it is a non-empty string of digits with a value which fits in 64 bits; overflow is reported exactly if some prefix of digits does not |
| SpoolNames.PrintedValue | endpoints/horace+file/spoolfile.cc:39-45 | a printed name has the value printed, and the greater of the width and the number of digits |
| SpoolNames.PrintedShape | endpoints/horace+file/spoolfile.h:50-52 | a name is what its value prints as, at a given width, if and only if it has padding and that length, or none and at least that length |
| SpoolNames.ScanFilestore | endpoints/horace+file/filestore_scanner.cc:28-87 | a listing is accepted if and only if one width explains every name in it; the result is the first number, the number after the last, and such a width |
| SpoolNames.MadeMeans | endpoints/horace+file/filestore_scanner.cc:30-71 | a width explains a listing if and only if everything in it which does not begin with a full stop is the name, printed with that width, of a number less than 2^64 - 1 |
| SpoolNames.DescriptionUnique | endpoints/horace+file/filestore_scanner.cc:30-80 | the result depends only on which names are listed, not on their order |
| SpoolNames.WidthRegenerates | endpoints/horace+file/file_session_writer.cc:86-91 | the width found prints the same name as the width originally used for every number from the first onwards |
| SpoolNames.PrintedMade | endpoints/horace+file/filestore_scanner.cc:33-71 | names printed with one width are accepted, in any order |
| DirectoryNames.ScanOfNames | endpoints/horace+file/filestore_scanner.cc:28-87 | scanning the names of the spoolfiles on disk gives the first file number and the number after the last, which are those that the protocol starts from |
| DirectoryNames.NextIsNew | endpoints/horace+file/file_session_writer.cc:19-33 | the name of the next file is not in the directory, with whatever width was found |
| DirectoryNames.WidthAgrees | endpoints/horace+file/file_session_reader.cc:62-70 | reader and writer, scanning at different times, print the same name for every number from the first they found onwards |
| DirectoryNames.FileAdded | endpoints/horace+file/file_session_writer.cc:86-91 | a file made under the next number or a later one leaves every name printed with one width, which is six if there were none |
| DirectoryNames.FileRemoved | endpoints/horace+file/spoolfile_reader.cc:52-55 | deleting a spoolfile leaves every name printed with that width |
| Capture.StampStorable | horace/new_session_writer.cc:137-143 | an event, once it has a sequence number and a hash, is still in canonical order and can be stored under the context of the session |
| Capture.StampInjective | horace/new_session_writer.cc:137-143 | the event, its sequence number and the hash it includes can all be told from the record written |
| Capture.StampStates | horace/new_session_writer.cc:137-143 | the record written has the sequence number and the hash added, and every other attribute unchanged |
| Capture.ChainGrows | horace/new_session_writer.cc:149-156 | one more event adds one record and one hash to the chain and changes none before it |
| Capture.SameEvent | horace/new_session_writer.cc:149-156 | equal hashes of two events come from the same session record, equal events, and equal previous hashes |
| Capture.HashBindsHistory | man/man1/horace-capture.1:78-81 | if two events, possibly of different sessions, have equal hashes and no two different inputs collide, then the session records, the positions, and every event up to that point are equal |
| Capture.EndHashBindsSession | horace/new_session_writer.cc:181-198 | likewise equal hashes of end records mean that the whole sessions are equal, including when they ended |
| CaptureIo.NewSessionWriter.BeginSession | horace/new_session_writer.cc:102-123 | the stream is the session record and a signature over its hash, which starts the chain |
| Capture.StampSeqnum | horace/new_session_writer.cc:137-140 | the record written states the sequence number given to it |
| Capture.SignatureStates | horace/event_signer.cc:86-99 | a signature record states the sequence number it is for, if any, and has the signature of the hash |
| Capture.EndStates | horace/new_session_writer.cc:181-189 | an end record states the time, the sequence number, the hash of the last event if and only if that is to hand, and nothing else |
| CaptureIo.NewSessionWriter.WriteEvent | horace/new_session_writer.cc:125-170 | the event is written with its sequence number and the hash of the one before, the events in the stream are still those of the chain, and the signer is told of the latest; if the write is interrupted by termination then nothing is written, and the chain survives if and only if there is no previous hash to lose |
| CaptureIo.NewSessionWriter.WriteSignature | horace/new_session_writer.cc:172-177 | a signature goes into the stream and leaves the chain alone |
| CaptureIo.NewSessionWriter.EndSession | horace/new_session_writer.cc:179-212 | the end record includes the hash of the last event (if that has not been lost), a signature over it follows, and nothing more can be written |
| CaptureIo.EndAfterInterruption | horace/new_session_writer.cc:125-189 | if an event is captured, the next write is interrupted and the session ends, then the end record states no hash, and so is not the one by which the session could be validated |
| Signing.RunKeepsInv | horace/event_signer.cc:24-67 | the invariant from which the results below follow holds after every interleaving of the critical sections of all threads |
| Signing.CapturesOneChain | horace/new_session_writer.cc:125-170 | whatever the interleaving of the sources, the events written have consecutive sequence numbers and form one chain |
| Signing.SignaturesFaithful | horace/event_signer.cc:45-60 | each event signature states the number k of an event earlier in the stream and is over the hash of that event |
| Signing.SignaturesIncrease | horace/event_signer.cc:45-60 | each event signature is of a later event than the one before, and the 64-bit sequence numbers stated in the records increase until they wrap round |
| SigningProgress.LatestIsSignedNext | horace/event_signer.cc:101-110 | of the events which the signer has been told of, the latest is the one waiting to be signed, with its hash in the chain, or else its signature is being made or is the last in the stream |
| SigningProgress.WaitsOnlyWhenSigned | horace/event_signer.cc:33-43 | no wake-up is lost: while the signer waits, and no source is part way through capturing an event, the last event has been signed |
| SigningProgress.NoLockWhileBusy | horace/event_signer.cc:25-31 | the signer has no lock while it waits, delays or makes a signature |
| SigningProgress.NoMoreSignatures | horace/event_signer.cc:33-43 | once the session is to terminate, no event signature follows unless the signer had taken that event already |
| SigningProgress.NothingAfterEnd | horace/new_session_writer.cc:179-212 | once the session has ended nothing more is written, whatever steps are taken |
| SigningProgress.CallWrites | horace/new_session_writer.cc:125-170 | a source which is left to itself with both locks free writes its event, stamped with the next number and the last hash, hands over the hash, wakes the signer if it was waiting and gives up both locks, whether or not the session is to terminate |
| SigningProgress.SignerSigns | horace/event_signer.cc:34-60 | the signer, left to itself with both locks free, appends one signature, of the latest event, and leaves nothing to sign |
| Signing.EndedWithSignature | horace/new_session_writer.cc:179-212 | a session which has ended starts with its session record and a signature for it, and ends with its end record and a signature for that |
| SigningSessions.SessionWellFormed | horace/new_session_writer.cc:125-170 | if the session record can be stored, and each event passed by a source can be captured, then the session captured is well formed, whatever the interleaving |
| SigningSessions.EndHashFixesStream | man/man1/horace-capture.1:78-81 | two sessions which have ended, captured with any interleavings from such sources, whose end records have equal hashes, are equal and have the same events in their streams, unless the hash function collides |
| Signing.NoDeadlock | horace/event_signer.cc:25-31 | whoever has the signer lock can proceed, and whoever has the writer lock can too unless it waits for the signer lock, so that neither is waited for by the holder of the other |
| Signing.AlwaysAbleToEnd | src/horace-capture.cc:226-236 | from every state that can be reached there are steps which lead to the end of the session |
| Signing.StopReturns | horace/event_signer.cc:112-123 | while the main thread waits for the signer to exit, the signer is not waiting to be notified, only it can act, and each of its steps brings it nearer to exit |
| Prefixes.MaskBits | horace/address_filter.cc:12-20 | the mask for a word of an IPv6 address has exactly the bits that belong to the prefix |
| Prefixes.MatchIsAgreement4 | horace/address_filter.cc:65-86 | comparison with an IPv4 netblock under its mask succeeds if and only if every bit of the address up to the prefix length is that of the prefix, and the prefix has no other bit set |
| Prefixes.MatchIsAgreement6 | horace/address_filter.cc:91-111 | likewise the comparison of four words of an IPv6 address, over all 128 bits |
| FrameLayouts.FiltersInet4 | horace/address_filter.cc:59-89 | for all lists of netblocks, a frame laid out as twelve octets of Ethernet addresses, 08 00, twelve octets of header, a source and a destination address, and anything else, is rejected exactly if one of those is in a listed netblock, and is accepted whole otherwise |
| FrameLayouts.FiltersInet6 | horace/address_filter.cc:91-114 | likewise with 86 dd, eight octets of header, and addresses of sixteen octets |
| FrameLayouts.FiltersOthers | horace/address_filter.cc:59-63 | a frame of any other type is accepted whole |
| AddressFilters.CompilerCorrect | horace/address_filter.cc:22-118 | for every frame long enough for the addresses it is said to have, the compiled program rejects the frame exactly if it is IPv4 or IPv6 with a source or destination whose bits agree with a listed netblock up to its length, and accepts it whole otherwise |
| AddressFilters.ProgramContained | horace/address_filter.cc:51-118 | every jump offset fits in its field and lands inside the program, if there is room for the IPv4 section |
| AddressFilters.ContainedTerminates | horace/address_filter.cc:56-118 | so every run on every frame, however short, reaches a return |
| AddressFilters.CountInet4 | horace/address_filter.cc:38-43 | the count made in advance is the number of instructions |
| FrameLayouts.Inet4Length | horace/address_filter.cc:32-43 | that number is eight for each netblock, less two for each single address, and one |
| AddressFilters.CompileLists | horace/address_filter.cc:22-118 | the loops fill the array exactly, with the program specified, or report that there are too many addresses |
| AddressFilters.AddressFilter.Compile | horace/address_filter.cc:136-142 | the program is for the lists as they were when first compiled |
| AddressFilters.AddressFilter.Empty | horace/address_filter.cc:132-134 | the answer is right if and only if it is not the case that there are only IPv6 netblocks |
| AddressFilters.StaleProgram | horace/address_filter.cc:124-142 | a program compiled before netblocks were added gives the right verdict on a frame, for the lists as they are now, if and only if the frame is not one which only the additions exclude |
| AddressFilters.StaleProgramAccepts | horace/address_filter.cc:124-142 | such a frame: one from an address listed after an empty filter was first compiled is accepted |
| LeapSeconds.CorrectionExact | horace/leap_second_corrector.cc:37-137 | for every timestamp within half a day of a leap second, and a reading taken no earlier and at most a second later, the correction gives the true time if and only if it is not the case that the clock was set back between the two and then showed the same microsecond again |
| LeapSeconds.CorrectionRecoversTrueTime | horace/leap_second_corrector.cc:68-75 | so the correction is right if the reading was taken at most a second less a microsecond later |
| LeapSeconds.BoundIsSharp | horace/leap_second_corrector.cc:73-75 | for every leap second there is a timestamp for which a reading one nanosecond later than that, and less than a second later, gives the wrong time |
| LeapSeconds.ChangedExactly | horace/leap_second_corrector.cc:37-137 | exactly which timestamps are changed for which reading, and to what |
| LeapSeconds.OrdinaryUnchanged | horace/leap_second_corrector.cc:76-137 | with a clock which has no leap second to insert, every timestamp is left alone, whatever the second of the day |
| LeapSeconds.RunOrdinaryUnchanged | horace/leap_second_corrector.cc:21-138 | likewise over any run of readings of such a clock |
| LeapSeconds.KernelReading | horace/leap_second_corrector.cc:140-155 | the reading recorded is the same whether the kernel gives nanoseconds or microseconds |
| LeapSeconds.LeapSecondCorrector.Correct | horace/leap_second_corrector.cc:21-138 | the reading used is the earliest ever recorded which does not pre-date the timestamp, or failing that one taken now |
| LeapSeconds.LeapSecondCorrector.RecordClockState | horace/leap_second_corrector.cc:140-155 | the reading is added to the queue in microseconds, whichever unit the kernel uses |
| LeapSeconds.RunCorrectsExactly | horace/leap_second_corrector.h:18-25 | over any run of recorded readings the same condition, on the reading which the queue supplies, is exact |
| LeapSeconds.ReferenceEarliest | horace/leap_second_corrector.cc:21-35 | that reading is one which may be used for the timestamp, and no other such reading was taken earlier |
| LeapSeconds.RunRecoversTrueTime | horace/leap_second_corrector.h:18-25 | so the true time is recovered if any one suitable reading was taken at most a second less a microsecond after the timestamp, even if later ones were not |
| Netblocks.Exact6 | horace/inet6_netblock.cc:12-294 | a text is accepted if and only if it is of one of the forms of sections 2.2 and 2.3 of RFC 4291 (decimal numbers having no leading zeros), and has exactly the octets and prefix length which that form stands for |
| Netblocks.Accepted6 | horace/inet6_netblock.cc:12-294 | every text of those forms is accepted, with its proper value |
| Netblocks.Sound6 | horace/inet6_netblock.cc:12-294 | nothing else is |
| Netblocks.Exact4 | horace/inet4_netblock.cc:12-141 | likewise for four decimal numbers and an optional prefix length |
| Netblocks.HexSound | horace/inet6_netblock.cc:23-95 | what the first loop has passed over is fields, at most one pair of colons, and part of a field |
| Netblocks.FieldMeans | horace/inet6_netblock.cc:43-56 | each hexadecimal field gives two octets, which stand for its number |
| Digits.HexDigits | horace/inet6_netblock.cc:78-94 | which digit, in either case, stands for which number |
| Netblocks.LastAccepted | horace/inet6_netblock.cc:97-222 | a field first read as hexadecimal is read again as decimal if a full stop follows |
| NetblockIo.Inet6Netblock.ScanHexFields | horace/inet6_netblock.cc:13-95 | the loop over indices fills the buffer as specified and never leaves it |
| NetblockIo.ScanDecimalFields | horace/inet6_netblock.cc:117-196 | likewise for the decimal fields |
| NetblockIo.ScanLength | horace/inet6_netblock.cc:250-284 | likewise for the prefix length |
| NetblockIo.Inet6Netblock.ParseLast | horace/inet6_netblock.cc:97-222 | backtracking over the digits of the field is as specified |
| NetblockIo.Inet6Netblock.MoveRight | horace/inet6_netblock.cc:239-247 | shifting in place and filling with zeros leaves what was left of the colons, then zeros, then what was right of them |
| NetblockIo.Inet6Netblock.Parse | horace/inet6_netblock.cc:12-294 | the buffer and prefix length are those specified, and an exception is thrown exactly if there are none |
| NetblockIo.Inet4Netblock.Parse | horace/inet4_netblock.cc:12-141 | likewise for IPv4 |
| SyslogComposition.OldComposed | endpoints/syslog+udp/syslog_parser.cc:279-289 | for every priority, timestamp of RFC 3164, host name and message, the text composed of them is read as exactly those fields |
| SyslogComposition.NewComposed | endpoints/syslog+udp/syslog_parser.cc:290-312 | likewise for RFC 5424, with any header, any message or none, and no structured data or any one element of it, whatever has to be escaped |
| SyslogComposition.ElementsLeft | endpoints/syslog+udp/syslog_parser.cc:202-246 | but structured data of more than one element is never read as such, and is left to the message |
| SyslogComposition.NoPriority | endpoints/syslog+udp/syslog_parser.cc:313-328 | without a priority the whole text is the message |
| SyslogComposition.NothingRecognised | endpoints/syslog+udp/syslog_parser.cc:313-328 | with a priority but neither a version nor a timestamp, or with a version 1 but not the whole of a header, everything after the priority is the message |
| SyslogComposition.NoHostname | endpoints/syslog+udp/syslog_parser.cc:279-289 | with a timestamp but no host name, everything after the timestamp is the message |
| Syslog.MessageRebuilds | endpoints/syslog+udp/syslog_parser.cc:254-329 | the message (without its framing) is rebuilt exactly from the fields read from it if and only if it does not have a version number other than 1 |
| Syslog.OldRebuilds | endpoints/syslog+udp/syslog_parser.cc:279-289 | the fields of a message in the format of RFC 3164 rebuild what follows the priority, whichever of them cannot be parsed |
| Syslog.NewRebuilds | endpoints/syslog+udp/syslog_parser.cc:290-312 | likewise for the format of RFC 5424, whether or not the header and the structured data can be parsed |
| Syslog.PriorityMeans | endpoints/syslog+udp/syslog_parser.cc:80-99 | the priority as printed between angle brackets is the text which was read |
| Syslog.VersionMeans | endpoints/syslog+udp/syslog_parser.cc:101-116 | likewise the version, with a space or the end after it |
| Syslog.TokenMeans | endpoints/syslog+udp/syslog_parser.cc:118-137 | a token is followed by a space or the end, and does not end in a space |
| Syslog.TimestampMeans | endpoints/syslog+udp/syslog_parser.cc:139-200 | likewise a timestamp |
| SyslogTimestamps.MonthOfMeans | endpoints/syslog+udp/syslog_parser.cc:145-155 | the search of the table of months finds a month if and only if the characters up to a NUL (if any) begin its name and no earlier one |
| SyslogTimestamps.TimestampExact | endpoints/syslog+udp/syslog_parser.cc:139-200 | a text is accepted if and only if, up to a space or the end after 15 characters, it is the text of a date and time with an hour of at most 59, or that with the month cut short by a NUL |
| SyslogTimestamps.MeetsRfc3164 | endpoints/syslog+udp/syslog_parser.cc:139-200 | among texts without an hour after 23 or a NUL in the month, those accepted are exactly the timestamps of section 4.1.2 of RFC 3164 |
| SyslogTimestamps.Accepted | endpoints/syslog+udp/syslog_parser.cc:147-173 | every date and time with either fault is accepted, and no such text is a timestamp of RFC 3164 |
| SyslogTimestamps.LateHourAccepted | endpoints/syslog+udp/syslog_parser.cc:171-173 | for example one with an hour of 45 |
| SyslogTimestamps.CutNameAccepted | endpoints/syslog+udp/syslog_parser.cc:147-154 | for example one with a month of J, a NUL and x |
| Syslog.StructuredDataMeans | endpoints/syslog+udp/syslog_parser.cc:202-246 | likewise structured data, whatever is quoted or escaped in it |
| SyslogIo.SyslogParser.constructor | endpoints/syslog+udp/syslog_parser.cc:17-29 | a single CR, LF or CRLF at the end is disregarded |
| SyslogIo.SyslogParser.ReadDecimal | endpoints/syslog+udp/syslog_parser.cc:31-78 | reads a number of the width asked for, modulo 2^32, with spaces or zeros in front only if allowed, and leaves what follows it, or leaves the index where it was; no index passes the end (nor in the methods below) |
| SyslogIo.SyslogParser.ReadPriority | endpoints/syslog+udp/syslog_parser.cc:80-99 | reads a number of at most 191 without leading zeros, in angle brackets, or leaves the index where it was |
| SyslogIo.SyslogParser.ReadVersion | endpoints/syslog+udp/syslog_parser.cc:101-116 | reads a number from 1 to 999 without leading zeros, with a space or the end after it, or leaves the index where it was |
| SyslogIo.SyslogParser.ReadToken | endpoints/syslog+udp/syslog_parser.cc:118-137 | reads the longest run of printable characters, with a space or the end after it, or leaves the index where it was |
| SyslogIo.SyslogParser.ReadTimestamp | endpoints/syslog+udp/syslog_parser.cc:139-200 | reads the 15 characters of a timestamp with a real day of the month, with a space or the end after it, or leaves the index where it was |
| SyslogIo.SyslogParser.ReadStructuredData | endpoints/syslog+udp/syslog_parser.cc:202-246 | reads a hyphen, or everything up to the first bracket that is not escaped, with a space or the end after it, or leaves the index where it was |
| SyslogIo.SyslogParser.ReadRemaining | endpoints/syslog+udp/syslog_parser.cc:248-252 | returns everything that is left |
| SyslogIo.SyslogParser.ReadMessage | endpoints/syslog+udp/syslog_parser.cc:254-329 | passes exactly the fields specified to the builder, in order, through every failure and restore point |

## Left out

- Files, sockets, pipes, inotify, poll, flock, fsync, clocks and logging are not modelled: a directory is a map from file number to the records in it, a source of octets is a sequence handed out in arbitrary chunks, and times and clock readings are parameters.
- Writing one record to a spoolfile, and rolling over to the next spoolfile, are each one atomic step of the forwarding protocol: a reader does not see part of a record, nor a new file before the old one has been flushed. In the code the old file is flushed by its destructor after the new one has been created, and `spoolfile_writer::sync` does not flush.
- At most one writer and one reader of a source are running at a time (in the code, lock files see to that).
- Forwarding.RunKeepsInv: file numbers are unbounded, so the exception on overflow at 2^64 is not modelled; and the file numbers of the protocol stand for names, as DirectoryNames relates them.
- Delivery.NoDuplicates: the destination is a set keyed on the session timestamp and sequence number for one source, and its handlers do not fail; the MongoDB and TCP endpoints are not modelled.
- ForwardingProgress.CatchesUp: that forwarding catches up is shown to be possible from the states in question; that each process which can take a step in the end does so is not modelled.
- Forwarding: the copy loop of `forward_one`, and the retry loop around it, are steps of the state machine rather than loops, so that they can be interrupted anywhere. The check for a discontinuity in sequence numbers there is not modelled, as it affects only what is logged; nor are error and warning records from the destination, or the check of the protocol version.
- Capture.HashBindsHistory: the hash function is arbitrary, with results of one fixed length; that no two different inputs hashed in the two sessions collide is a hypothesis, as is that events bring no sequence number or hash of their own.
- CaptureIo.NewSessionWriter.WriteEvent: the retry in `new_session_writer::_write` is not modelled, as it goes on to use the writer which it has just discarded; nor is the signal sent when the destination is not writable.
- Signing.RunKeepsInv: the loop of `event_signer::_run` is steps of the state machine likewise. Each critical section is split where a lock is taken or released, and where the signer polls and then tests for a hash; threads are taken to be sequentially consistent, and writes not to be interrupted (CaptureIo.NewSessionWriter.WriteEvent says what follows if one is).
- LeapSeconds.LeapSecondCorrector.RecordClockState: the 64-bit index of timestamps is counted without wrapping round.
- AddressFilters.CompileLists: the 32-bit count of instructions is counted without wrapping round, which needs some 10^8 netblocks; the conversion between host and network order is the identity on octets.
- Characters are those of the "C" locale.
- SpoolNames.ScanFilestore: names are shorter than 2^32 - 1 characters.
- Records.RecordRoundTrip: that attribute lengths are below 2^31, and timestamps later than the epoch, are hypotheses; Codec.HeaderRoundTrip and Codec.TimestampRoundTrip say exactly what happens otherwise.
- Attribute lists are sequences of values, in which the ownership and copying of attributes is not visible.
- CodecIo.WriteRecord: the lengths of attributes are below 2^64 in total, as the code assumes of `size_t`.
- SessionBuilders.SessionBuilder.DefineAttribute: fewer than 2^31 attributes and channels are declared, IDs being 32-bit integers.
- The kernel's half of packet capture, the hash and signature algorithms, the TCP and MongoDB endpoints, option parsing, help text, signals, host name lookup, the NTP client, time zones and URI parsing would add nothing but easy members, or are not in the repository.
