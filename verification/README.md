# Verified model of the commlib cores

A Dafny model of the parts of the commlib C library that hold their own logic, with proofs of
what those parts promise. `dafny verify dfyconfig.toml` checks everything.

- **Streaming MD5** (`genmd5.c`, and its callers in `genstring.c`). `Md5Spec.dfy` is the one-shot
  definition of sections 3.1 to 3.5 of RFC 1321. `Md5.dfy` is the library's context: two counter
  words with a hand-made carry, four state words and a 64-byte carry buffer, updated in place. For
  every way of cutting a message into chunks, Init, one Update a chunk and Final write the digest
  of the whole message. The 64 unrolled lines are proved equal to 64 indexed steps, and the round
  functions and the rotation are pinned down bit by bit. `Md5KnownAnswer.dfy` computes a digest of
  the test suite of RFC 1321 from the definition, which ties every constant of the tables to its value.
- **Login sessions** (`fcp_os.c`, `list.h`). `Ring.dfy` is the circular doubly linked list on the
  heap. `Sessions.dfy` is the pairing of logins with logouts as a function on the record sequence,
  with what it promises: a one-to-one assignment, the largest possible, first in first out on each
  terminal, exact on alternating terminals. `LogoutOrder.dfy` proves that the time order of the
  logouts decides whether it is always the largest. `Logout.dfy` is the pointer-level loop (pop the
  front, scan, delete in mid-scan, leave), proved to call the callback on exactly the pairs of that
  function; `LogoutMemory.dfy` says which nodes it frees, and `LogoutBalance.dfy` which records leave
  none unfreed.
- **Base64** (`genstring.c`). `Base64.dfy` ties the two table-driven loops to section 4 of RFC 4648
  and proves that they undo each other, in both directions; test vectors of section 10 come out.
- **Field splitters** (`genstring.c`, `general.c`). `LineFields.dfy` defines the fields of a line,
  `FieldIterator.dfy` is the resumable iterator, `FieldsInPlace.dfy` the splitter that cuts a line
  in its own buffer. Where the second stays inside the line and has room for all, the two give the
  same fields exactly when the text it cuts is tidy and the line does not have both spaces in front
  and a newline at the end (`SplittersAgree`).
- **Signals** (`fcp_signal.c`). `Signals.dfy` keeps the table of saved actions and the saved mask
  beside the kernel's dispositions and the process's mask, over runs of calls.
- **Directory iterator** (`general.c`). `DirEntries.dfy` has the START/CON/STOP states, the paths in
  stream order, and the ownership of every allocated block and of the open directory.
- **Last path component** (`genstring.c`). `PathComponent.dfy`.

`Base.dfy` holds what they share: the early end of a run of deliveries, and the loop states.

## How the C is read

- Words and bytes are bounded integers with the wrap-around written out; only the MD5 round
  functions and base64 use bit-vectors. `|` on shifted bytes that share no bit is a sum.
- `md5_update`'s loop test `i+64 <= inputlen` wraps at 2^32. `LengthOk` is the exact set of lengths
  for which it ends the loop where it should (`LoopTestExact`); `Update` requires it.
- A C `char` is unsigned in base64. Where `char` is signed, each of the encoder's four table indices
  is in the table, and the same, exactly when the byte whose high bits it takes is below 128
  (`SignedCharAgrees`).
- System calls and C library calls that may fail are told by a parameter whether they do.
- `container_of` is a node carrying its entry. The callbacks are functions of all the calls made so
  far, so callbacks with state are covered. Files, directories and the number parser `atoi` are parameters.
- Lengths and indices held in a C `int` are unbounded here; the base64 members require a length that fits.
- The 64 unrolled lines are kept line by line, one method a round. The counter and block parts of
  `md5_update`, the loop and the final switch of `gen_base64_encode`, and the two loops of
  `os_info_logout_tty` are methods of their own, called where the source has them inline.

## Where the code differs from its comments or its purpose

- `gen_path_last_component` promises NULL for a path of slashes; the code returns the empty suffix.
- `general_get_field` looks for the trailing newline at the line's length counted from the first
  character that is not a space, so a line with leading spaces keeps its newline, and is then never
  cut into the iterator's fields (`TextOf`, `NewlineKept`, `LeadingSpaceKeepsNewline`).
- `general_get_field` does not compare a field's first character with the key, so of two keys in a
  row the second stays in the text (`DoubledKey`).
- `os_info_logout_tty` pairs the most sessions, whatever logins a file has, exactly when the logouts
  of each terminal are in time order (`OrderIsExact`); for any two that are not, there are logins
  with which a pair is lost (`OrderIsNeeded`).
- `os_info_logout_tty` does not free the nodes of unpaired logins it took off the list, nor of the
  login whose call ended the run (`Leaked`, `LoneLoginLeaks`, `LastLeaks`). On a file in time order
  nothing leaks exactly when no answer ends the run and, from every record on, each terminal has at
  least as many logouts as logins (`LeakFree`).
- `gen_base64_decode` stores more than it allocates exactly when three characters are left over or
  "==" occurs anywhere (`StoresFit`); the encoder's own output does that for every length 1 mod 3
  (`EncodedFits`).
- A second `sigutil_sig_add` of a saved signal overwrites the saved action, and the original one is
  lost for good (`SecondAddLoses`, `DelAllRestores`).
- `sigutil_unblock_sig` unblocks the whole library mask first, so signals the process had blocked
  by itself before are lost with it (`UnblockLoses`, `MaskExact`).
- `general_get_field` does not check for the end after skipping the blanks behind a key, and steps
  over the terminator when only blanks follow and fields are still wanted (`StepsOver`).

## Model

| member | source | states |
|---|---|---|
| Words.WordsRoundTrip | src/myfcp/genmd5.c:50-81 | words laid out as bytes, low-order first, read back as the same words |
| Words.BytesRoundTrip | src/myfcp/genmd5.c:50-81 | bytes read as words lay out as the same bytes |
| Md5Spec.MixIsBitwise | src/myfcp/genmd5.c:8-11 | each round's function is the one word whose bit is, in every place: y or z as x is set (F), x or y as z is set (G), the parity (H), y turned over where x is set or z is clear (I) |
| Md5Spec.RotateIsCircular | src/myfcp/genmd5.c:12 | rotating left by n is the one word whose bit k is the bit n places below, round the end, for every n from 1 to 31 |
| Md5Spec.ScheduleStrides | src/myfcp/genmd5.c:94-164 | the four rounds start at words 0, 1, 5, 0 and go on by 1, 5, 3, 7 mod 16 |
| Md5Spec.InitialBytes | src/myfcp/genmd5.c:177-180 | the initial registers, low-order byte first, are 01 23 45 67 89 ab cd ef fe dc ba 98 76 54 32 10 |
| Md5KnownAnswer.DigestOfAbc | src/myfcp/genmd5.c:84-226 | the digest of "abc" is 900150983cd24fb0d6963f7d28e17f72: all 64 constants, shifts, the padding and the byte orders take part |
| Md5Spec.AbsorbConcat | src/myfcp/genmd5.c:197-206 | absorbing two whole-block messages in turn is absorbing their concatenation |
| Md5Spec.PadIsMinimal | src/myfcp/genmd5.c:220-221 | no shorter padding brings the length to 56 mod 64 |
| Md5Spec.PadBlocks | src/myfcp/genmd5.c:215-226 | finishing compresses one block when the tail is shorter than 56 bytes, else two |
| Md5Spec.LengthFieldValue | src/myfcp/genmd5.c:222-224 | the eight bytes, read as two words with the low word first, are the bit count mod 2^64 |
| Md5Spec.LengthFieldInjective | src/myfcp/genmd5.c:222-224 | the eight length bytes determine any bit count below 2^64 |
| Md5Spec.PadInjective | src/myfcp/genmd5.c:215-226 | messages with equal padded forms are equal, however long |
| Md5Spec.LengthFieldWraps | src/myfcp/genmd5.c:191-195 | the length field alone repeats after 2^64 bits |
| Md5.FourF | src/myfcp/genmd5.c:94-109 | four consecutive lines of round 1, with rotating registers, are four indexed steps |
| Md5.FourG | src/myfcp/genmd5.c:112-127 | the same for round 2, with word index 5i+1 mod 16 |
| Md5.FourH | src/myfcp/genmd5.c:130-145 | the same for round 3, with word index 3i+5 mod 16 |
| Md5.FourI | src/myfcp/genmd5.c:149-164 | the same for round 4, with word index 7i mod 16 |
| Md5.Round1 | src/myfcp/genmd5.c:94-109 | the sixteen written-out lines of round 1 are steps 0 to 15 |
| Md5.Round2 | src/myfcp/genmd5.c:112-127 | the sixteen written-out lines of round 2 are steps 16 to 31 |
| Md5.Round3 | src/myfcp/genmd5.c:130-145 | the sixteen written-out lines of round 3 are steps 32 to 47 |
| Md5.Round4 | src/myfcp/genmd5.c:149-164 | the sixteen written-out lines of round 4 are steps 48 to 63 |
| Md5.Transform | src/myfcp/genmd5.c:84-169 | the in-place block transform is the 64-step compression with feed-forward, for every state and block |
| Md5.EncodeWords | src/myfcp/genmd5.c:50-64 | the byte loop writes the words low-order byte first and nothing else |
| Md5.DecodeWords | src/myfcp/genmd5.c:67-81 | the word loop reads the block's bytes low-order byte first |
| Md5.CountIndex | src/myfcp/genmd5.c:189 | bits 3 to 8 of the low counter word are the total length mod 64 |
| Md5.CountCarry | src/myfcp/genmd5.c:191-195 | the wrap test and the shifted-out bits keep the counter pair at 8 times the total, mod 2^64 |
| Md5.LoopTestExact | src/myfcp/genmd5.c:202 | the wrapping loop test ends the loop after the last whole block exactly for the lengths of LengthOk |
| Md5.NoWrap | src/myfcp/genmd5.c:202 | for those lengths i+64 never wraps at a block boundary |
| Md5.AbsorbBlocks | src/myfcp/genmd5.c:197-206 | the carried block and all whole blocks of the input are absorbed, fewer than 64 bytes are left |
| Md5.Context.Init | src/myfcp/genmd5.c:173-181 | the context stands for the empty message |
| Md5.Context.AddLength | src/myfcp/genmd5.c:191-195 | the two counter words count the longer message, mod 2^64 |
| Md5.Context.Update | src/myfcp/genmd5.c:183-212 | counter, state and carry buffer become those of the bytes fed before followed by the input |
| Md5.Context.Final | src/myfcp/genmd5.c:215-226 | the digest is that of RFC 1321 for the bytes fed, and the context has absorbed the padded message |
| Md5.DigestChunks | src/myfcp/genmd5.c:173-226 | any cut of a message into chunks of lengths each update accepts, empty ones included, gives the digest of the message |
| Md5.ShortChunksOk | src/myfcp/genmd5.c:202 | every length below 2^32-64 is accepted, whatever was fed before |
| Md5.HexInjective | src/myfcp/genstring.c:287-290 | different digests print as different strings |
| Md5.LowerCase | src/myfcp/genstring.c:287-290 | the digits are 0 to 9 and a to f |
| Md5.PrintHex | src/myfcp/genstring.c:287-290 | the sixteen prints leave the 32 digits and one NUL |
| Md5.StringMd5 | src/myfcp/genstring.c:275-293 | the printed digest of the string's bytes |
| Md5.FileMd5 | src/myfcp/genstring.c:296-337 | reading 256 bytes at a time prints the digest of the contents; -1 exactly when opening or some read fails |
| Ring.RingDeterminesNodes | src/myfcp/list.h:6-10 | the links of a ring determine its node sequence |
| Ring.InitListHead | src/myfcp/list.h:15-19 | a head linked to itself is the empty ring |
| Ring.SetEntry | src/myfcp/fcp_os.c:239 | writing a record leaves the ring as it was |
| Ring.AddBetween | src/myfcp/list.h:34-40 | linking between neighbours inserts the node at that place |
| Ring.AddTail | src/myfcp/list.h:42-45 | add_tail appends |
| Ring.AddFront | src/myfcp/list.h:47-50 | add prepends |
| Ring.Delete | src/myfcp/list.h:52-56 | del removes one place, the others keep their order, the removed node keeps its links |
| Ring.Replace | src/myfcp/list.h:58-64 | replace substitutes one node |
| Ring.Empty | src/myfcp/list.h:66-69 | true exactly on the empty ring |
| Ring.PopFront | src/myfcp/list.h:72-81 | takes the first node, null on the empty ring |
| Ring.Front | src/myfcp/list.h:84-92 | shows the first node, null on the empty ring |
| Ring.Size | src/myfcp/list.h:94-105 | the safe walk ends and counts every node once |
| Sessions.EntriesInFileOrder | src/myfcp/fcp_os.c:40-60 | the entries are those of all records of type 7 or 8 and no others, in file order |
| Sessions.SecondsTruncate | src/myfcp/fcp_os.c:56 | the microseconds add their whole seconds, truncated toward zero |
| Sessions.EntriesInTimeOrder | src/myfcp/fcp_os.c:40-60 | a chronological file gives entries in time order |
| Sessions.FirstClosing | src/myfcp/fcp_os.c:231-250 | the first later logout on the same terminal, not before the login |
| Sessions.PairsClose | src/myfcp/fcp_os.c:222-251 | every pair is a login and a logout that closes it |
| Sessions.PairsDistinct | src/myfcp/fcp_os.c:222-251 | pairs come in login order and no logout is used twice |
| Sessions.PairingIsAssignment | src/myfcp/fcp_os.c:222-251 | the pairs are an injective assignment of logins to later closing logouts |
| Sessions.Exchange | src/myfcp/fcp_os.c:222-251 | taking the head login and its first closing logout costs any assignment at most one login |
| Sessions.PairingIsLargest | src/myfcp/fcp_os.c:222-251 | with each terminal's logouts in time order, no injective assignment serves more logins |
| Sessions.PairingIsFifo | src/myfcp/fcp_os.c:231-249 | of two paired logins on a terminal the earlier gets the earlier logout |
| Sessions.UnpairedAreLast | src/myfcp/fcp_os.c:231-249 | the unpaired logins of a terminal come after its paired ones |
| Sessions.AlternatingExact | src/myfcp/fcp_os.c:222-251 | on alternating terminals the pairs are exactly the logins with the next record of their terminal |
| LogoutOrder.PairLost | src/myfcp/fcp_os.c:231-250 | with a login for each of the last logouts, that of a too early one first, every login could have a logout but not all are paired |
| LogoutOrder.OrderIsNeeded | src/myfcp/fcp_os.c:237 | for any logout records with two of a terminal out of time order there is a file with exactly these logouts in which more logins could be paired than are |
| LogoutOrder.OrderIsExact | src/myfcp/fcp_os.c:222-251 | the pairing is a largest one in every file with given logouts exactly when each terminal's logouts are in time order |
| Logout.InitLoginList | src/myfcp/fcp_os.c:29-64 | the ring carries the kept records in file order |
| Logout.ExitLoginList | src/myfcp/fcp_os.c:66-80 | deleting under the safe walk empties the ring and frees each node once |
| Logout.CloseSession | src/myfcp/fcp_os.c:231-250 | the scan finds the first closing logout, reports the pair, deletes that node and frees both; on a negative answer it frees the ring instead |
| Logout.PairingStep | src/myfcp/fcp_os.c:222-251 | one turn of the outer loop, as a change of the pairs still to come |
| Logout.PairAll | src/myfcp/fcp_os.c:222-253 | the loop ends, the calls are the pairs cut after the first negative answer, and all nodes but the leaked ones are freed, once |
| Logout.LogoutTty | src/myfcp/fcp_os.c:211-256 | -1 without a file; else 0 and the callback gets exactly those pairs up to its first negative answer, each a session of two of the file's records; the nodes never freed are exactly the leaked ones |
| Logout.ReportIsSession | src/myfcp/fcp_os.c:40-58 | a report comes from a type 7 record and a later type 8 record of the same line, with the first 127 characters of line and user, 255 of host, and their seconds |
| LogoutMemory.RestReleased | src/myfcp/fcp_os.c:240-244 | after a negative answer the unfreed nodes are the login reported last and the unpaired logins before it |
| LogoutMemory.LastLeaks | src/myfcp/fcp_os.c:240-244 | the login whose call ends the run is not freed |
| LogoutMemory.LoneLoginLeaks | src/myfcp/fcp_os.c:222-251 | the node of a login alone in the file is not freed |
| LogoutBalance.AllServed | src/myfcp/fcp_os.c:222-251 | when no logout is before an earlier login of its terminal, every login is paired exactly when, from every place on, each terminal has at least as many logouts as logins |
| LogoutMemory.LeakFree | src/myfcp/fcp_os.c:222-253 | under the same order, nothing leaks exactly when no answer ended the run and the records pass that count |
| Logout.ReportsAreSessions | src/myfcp/fcp_os.c:237-240 | every report is a login's record with the time of a later logout of its terminal, not before the login |
| Logout.ReportsAreMost | src/myfcp/fcp_os.c:211-256 | on a chronological file and without early stop, no choice of logouts closes more logins than are reported |
| EarlyStop.CutIsUnique | src/myfcp/fcp_os.c:240-244 | the calls made under an early stop are determined by the callback |
| EarlyStop.CutMeans | src/myfcp/fcp_os.c:240-244 | the calls are a prefix of the deliveries; none but the last was answered by an end, and the last was unless all were made |
| Base64.IndexIsSextet | src/myfcp/genstring.c:200-203 | shifts and masks give the four 6-bit groups of three bytes |
| Base64.AlphabetOfTable1 | src/myfcp/genstring.c:188 | the alphabet is A-Z, a-z, 0-9, + and / in this order |
| Base64.PlaceOfGroup | src/myfcp/genstring.c:198-204 | every place that keeps a letter has the right one, whatever follows the terminator |
| Base64.PadPlaces | src/myfcp/genstring.c:206-215 | the overwritten places are exactly those that hold no bit of the data |
| Base64.Encode | src/myfcp/genstring.c:182-218 | the result is the encoding of RFC 4648, 4*ceil(n/3) characters and a NUL |
| Base64.TestVectors | src/myfcp/genstring.c:182-218 | "f", "fo", "foo" and "foobar" encode as Zg==, Zm8=, Zm9v and Zm9vYmFy |
| Base64.TableInverts | src/myfcp/genstring.c:224-236 | the decode table undoes the alphabet |
| Base64.AlphabetInverts | src/myfcp/genstring.c:224-236 | the alphabet undoes the decode table's nonzero entries |
| Base64.Decode | src/myfcp/genstring.c:222-271 | every group is unpacked into three bytes over the zeroed allocation and what lies behind it, the length follows the padding found, and a length below -1 gives NULL |
| Base64.DoublePadMeans | src/myfcp/genstring.c:244 | a double padding is "==" anywhere |
| Base64.LeftOver | src/myfcp/genstring.c:263-268 | three characters left over store three bytes more, the terminator giving zero bits |
| Base64.StoresFit | src/myfcp/genstring.c:244-269 | the bytes stored fit the allocation exactly when the length is not 3 mod 4 and there is no double padding |
| Base64.EncodedFits | src/myfcp/genstring.c:182-269 | an encoding ends in a double padding, and overflows the decoder's allocation, exactly for lengths 1 mod 3, and then by one byte |
| Base64.RoundTrip | src/myfcp/genstring.c:182-271 | decoding an encoding gives the bytes back, and the bytes stored under the padding are zero |
| Base64.CanonicalRoundTrip | src/myfcp/genstring.c:182-271 | encoding the decoding of canonical text gives the text back |
| Base64.EncodedIsCanonical | src/myfcp/genstring.c:182-218 | every encoding is canonical, so the two are inverse bijections |
| Base64.EncodeThenDecode | src/example/teststring.c:28-40 | the two functions run in turn give back any NUL-free string, with one byte to spare behind the result when its length is 1 mod 3 |
| Base64.SignedCharAgrees | src/myfcp/genstring.c:200-203 | with signed char each table index is in range exactly when the byte whose high bits it takes is below 128, and then the same |
| LineFields.FieldsAreClean | src/myfcp/genstring.c:135-158 | every field is nonempty, free of the key and starts with neither a space nor a tab |
| LineFields.OneNewline | src/myfcp/genstring.c:113-114 | one newline at the end is dropped, and nothing else |
| LineFields.LineRoundTrip | src/myfcp/genstring.c:86-161 | a line of clean fields joined with the key and ended by a newline splits into the fields |
| LineFields.JoinRoundTrip | src/myfcp/genstring.c:86-161 | so does one without a newline, when the last field does not end in one |
| LineFields.SkipOne | src/myfcp/genstring.c:135-136 | a space, a tab or a key in front of a line does not change its fields |
| LineFields.FirstField | src/myfcp/genstring.c:138-142 | on a line that starts with none of them, the text up to the next key is the first field |
| FieldIterator.ScanField | src/myfcp/genstring.c:135-145 | the two scans find the first of the remaining fields, or that none remains |
| FieldIterator.ForeachField | src/myfcp/genstring.c:86-177 | one call delivers the next field and leaves the others to come, or releases everything |
| FieldIterator.ForeachLineField | src/myfcp/genstring.h:16-18 | a run from a zeroed item delivers exactly the line's fields, up to where the caller stops |
| FieldsInPlace.CutsAgree | src/myfcp/general.c:175-188 | from a field's start, cuts and fields are the same exactly when no key follows a key |
| FieldsInPlace.SplittersAgree | src/myfcp/general.c:153-191 | for every line the loop ends on, its cuts are the iterator's fields exactly when the text is tidy and the line has not both leading spaces and a final newline |
| FieldsInPlace.NewlineKept | src/myfcp/general.c:166-167 | a line with both is never cut into the iterator's fields |
| FieldsInPlace.LeadingSpaceKeepsNewline | src/myfcp/general.c:163-167 | a space, a field and a newline: the text is tidy, and the one cut keeps the newline |
| FieldsInPlace.SpaceKeyAgrees | src/myfcp/general.c:153-191 | with a space for key, it does on every line that neither starts nor ends with a blank |
| FieldsInPlace.DoubledKey | src/myfcp/general.c:175-188 | on two keys in a row it does not: the second key stays in the text |
| FieldsInPlace.KeyInFront | src/myfcp/general.c:173-178 | a key in front of the text gives an empty first cut |
| FieldsInPlace.TabInFront | src/myfcp/general.c:164-165 | only spaces are passed over in front: a leading tab stays |
| FieldsInPlace.CutLine | src/myfcp/general.c:174-189 | the loop leaves the first fieldnum cuts as C strings at the places in `field`, and writes no other slot |
| FieldsInPlace.GetField | src/myfcp/general.c:153-191 | the same for the whole function, with its error cases and the dropped newline |
| FieldsInPlace.StepsOver | src/myfcp/general.c:175-187 | a line the loop does not end on has a key followed by nothing but blanks |
| FieldsInPlace.AgreeingFields | src/myfcp/general.c:153-191 | on every line where the splitters agree, `field` shows the iterator's first fieldnum fields, and no other slot is written |
| FieldsInPlace.SpaceFields | src/myfcp/general.c:153-191 | on lines without blank ends, `field` shows the iterator's first fieldnum fields, and no other slot is written |
| Signals.StepUnderlying | src/myfcp/fcp_signal.c:40-86 | a call changes what a delete would restore only by adding a saved signal again |
| Signals.AddInForce | src/myfcp/fcp_signal.c:40-58 | a successful add puts the handler, flag 0x10000000 and every signal but 9 and 19 in force and saves what was; any other add changes nothing |
| Signals.DelInForce | src/myfcp/fcp_signal.c:60-72 | a successful delete of a saved signal puts the saved action back; any other changes nothing |
| Signals.OriginalKept | src/myfcp/fcp_signal.c:40-86 | without such an add, the slot or else the disposition is the original action |
| Signals.OriginalLost | src/myfcp/fcp_signal.c:40-86 | after such an add it is what the add before the latest such add installed |
| Signals.DelAllRestores | src/myfcp/fcp_signal.c:74-86 | delete-all restores a signal's original action exactly when the run never added it while saved, or the original is what the add before the latest such add installed |
| Signals.SecondAddLoses | src/myfcp/fcp_signal.c:40-86 | after two adds and delete-all the first handler is in force |
| Signals.SlotHoldsReplaced | src/myfcp/fcp_signal.c:52-55 | a saved slot holds what the latest successful add replaced |
| Signals.MaskAfterRun | src/myfcp/fcp_signal.c:92-143 | the process mask, in closed form, after any run in which the blocking sigprocmask calls succeed |
| Signals.LibAfterRun | src/myfcp/fcp_signal.c:92-143 | over any run, the library mask holds exactly the signals added by some block and not deleted by a later unblock |
| Signals.ProcessStep | src/myfcp/fcp_signal.c:92-143 | what one call does to the process mask, signal by signal, for every outcome of its system calls |
| Signals.HeldIsBlocked | src/myfcp/fcp_signal.c:92-143 | a signal added by some block and not deleted since is blocked, whatever was done to the others |
| Signals.MaskBounds | src/myfcp/fcp_signal.c:92-143 | the library's signals are blocked, nothing else is added, signals never blocked are untouched |
| Signals.MaskExact | src/myfcp/fcp_signal.c:92-143 | original mask plus library mask exactly when no originally blocked signal was wiped and not blocked again |
| Signals.UnblockLoses | src/myfcp/fcp_signal.c:92-143 | a signal blocked from the start is not blocked any more after a block and an unblock |
| Signals.SignalUtil.constructor | src/myfcp/fcp_signal.c:18-19 | nothing is saved at the start |
| Signals.SignalUtil.SigAdd | src/myfcp/fcp_signal.c:40-58 | saves the replaced action and installs the handler, or changes nothing |
| Signals.SignalUtil.SigDel | src/myfcp/fcp_signal.c:60-72 | puts the saved action back and frees the slot, or changes nothing |
| Signals.SignalUtil.SigDelAll | src/myfcp/fcp_signal.c:74-86 | deletes signal by signal, going on after failures |
| Signals.SignalUtil.BlockSig | src/myfcp/fcp_signal.c:92-113 | adds to the library mask and blocks all of it, once per signal; -1 when either call fails |
| Signals.SignalUtil.UnblockSig | src/myfcp/fcp_signal.c:119-143 | unblocks the library mask and blocks what is left of it, all of it when the signal cannot be taken out |
| DirEntries.StopRead | src/myfcp/general.c:96-111 | every block the node owns, the open directory among them, is released once and the item is back at START |
| DirEntries.NextWanted | src/myfcp/general.c:72-78 | reads on in the open directory to the next entry of the wanted type other than . and .. |
| DirEntries.PathsInStreamOrder | src/myfcp/general.c:72-91 | the paths are those of all entries of the type, but not of "." and "..", in stream order |
| DirEntries.OpenNode | src/myfcp/general.c:29-55 | a node with its own copy of the path, or nothing left allocated |
| DirEntries.ForeachInodeEntry | src/myfcp/general.c:20-112 | one call delivers the next joined path, holds at most one, and frees the one before; at the end all is freed |
| DirEntries.ForeachEntry | src/myfcp/general.c:115-123 | a full run delivers the wanted paths in stream order up to a stop, and leaves the heap as it was |
| DirEntries.FindProcPid | src/myfcp/general.c:126-150 | the callback gets the numeric directories up to its first answer other than 0, and nothing stays allocated |
| DirEntries.PidEntriesInStreamOrder | src/myfcp/general.c:126-150 | these are the paths in /proc of all directories whose names atoi does not read as 0, in stream order |
| DirEntries.JoinPathSplits | src/myfcp/general.c:88-91 | a joined path splits at its last slash into the directory, its slash not doubled, and the name |
| DirEntries.PidPathsAreEntries | src/myfcp/general.c:134-138 | the last-slash test sees exactly the entry's name |
| PathComponent.LastComponent | src/myfcp/genstring.c:57-83 | the suffix at the last component; the empty suffix on a path of slashes; none on the empty path |
| PathComponent.LastComponentUnique | src/myfcp/genstring.c:53-56 | a path has one last component |
| PathComponent.NameIsLast | src/myfcp/genstring.c:57-83 | behind a slash or at the start, a name with any slashes after it is the last component |
| PathComponent.SlashesHaveNone | src/myfcp/genstring.c:57-83 | a path of slashes has the empty one |

## Left out

- Socket, daemon, process-stat, ELF, file-type, ARP, ping and os-version code: system calls and file reading with little logic of their own.
- Logging, the trim functions, `os_info_*` members other than `os_info_logout_tty`, and `sigutil_ignore_all_sig`: easy members.
- Null pointers, and failing allocations other than one of a negative length, are not part of this model.
- Md5.Context.Update: does not model lengths outside LengthOk, for which the source's loop runs past its input.
- Md5Spec.Sine: the 64 constants are a table, tied to their values by a known digest; their derivation from the sine function is not modelled.
- Base64.Decode: characters above 'z', which index the table out of range, are outside its precondition; so are texts whose stores go past the allocation and the bytes given behind it.
- FieldIterator.ForeachField: calls after the first -1 are outside its precondition, because the source then frees the last field again.
- FieldsInPlace.GetField: a line in which the loop comes to a key with only blanks behind it while fields are still wanted is outside its precondition, because the source then steps over the terminator.
- Signals.SignalUtil.SigAdd: sigfillset fills in every signal, those the C library keeps to itself included.
- Asynchronous signal delivery, and the window between the two sigprocmask calls of an unblock: each library call is one step.
- Md5.FileMd5: a read is short only at the end of the file.
- Integer overflow of `tv_sec` plus seconds and of the `int` counters of `list_size` is not modelled.
