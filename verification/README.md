# NOAAPORT decoder: a verified model

The repository receives NOAAPORT satellite data: it reads a byte stream into FIFOs, finds
packet headers in the stream, puts products together, and encodes and decodes gridded fields
in GRIB edition 2.  This project models the parts of it with the most intricate state and
proves what they are for.

| files | model |
|---|---|
| Binary, BitFields | powers of two, bit strings, and the bit-field routines of `g2/gbits.c` |
| Groups, Reduce, PackGp | the choice of groups for complex packing (`g2/g2_pack_gp.c`, `g2/g2_reduce.c`) |
| Packing, Comunpack | the layout of a packed data section (WMO FM 92 GRIB edition 2, Data Representation Templates 5.2 and 5.3, Data Templates 7.2 and 7.3), its meaning, and the decoder |
| Encoder, Compack, Misspack, Codec | the two encoders, and both round trips |
| Fifo | the threaded byte queue, as a class and as a system of interleaved threads |
| ShmFifo (module ShmRing), ShmCalls, ShmProtocol | the shared-memory record queue, its calls as the callers see them, and the semaphore protocol of its two processes |
| Message, Builder, Calls, Info, Templates, Octets, Unpack, GetField | GRIB2 messages built section by section by any sequence of calls, scanned, and read back field by field |
| Resync, Products | the search for packet headers and the reassembly of products |
| Calendar | `add_time` |

How to read it.  Integers are unbounded; the widths of the original appear as bounds in the
contracts (values below 2^30, lengths below 2^31).  A byte is a number from 0 to 255, masks
and shifts are written as remainders and quotients by powers of two, and a bit string is a
`seq<bool>` with the most significant bit first.  Code that works in place is a method over
arrays or a class, proved against functions whose own laws are lemmas.

The main results of complex packing compose as follows.  `Packing.Decode` says what a bit
string means, without loops.  `Comunpack.Comunpack` computes exactly that.
`Packing.DecodeOfStream` shows that the meaning of any well-formed plan of groups is the
samples that were planned, for every cut into groups.  `Compack.Compack` and
`Misspack.Misspack` write such a plan, for whatever groups `PackGp.G2PackGp` finds.
`Codec.PackAndUnpack` and `Codec.PackAndUnpackMissing` join both ends.

Which plan the encoders write is pinned down as well.  `PackGp.Traced` says which groups a run
of `g2_pack_gp` closes and why, `PackGp.Final` where the final ones come from, `Encoder.Chosen`
that an encoder uses them, and `Encoder.Written` that the octets are the header and the stream
of that plan, without a field wider than it has to be.

The message builder composes in the same way: `Calls.Accepts` says exactly which call succeeds
on which message, `Calls.Build` runs any sequence of calls, failing ones included,
`Calls.BuildAndInfo` adds `g2_info`, and `GetField.BuildAndGetFld` adds `g2_getfld`, which gives
back the arguments of the calls.  `GetField.Scanned` says what a scan makes of the calls: the
grid, local data and bitmap in force, or the error that ends it.

What the code does that its documentation does not say, the model follows:

- `shmfifo_put` and `shmfifo_get` promise E2BIG, EINVAL and EIO, but the status is overwritten
  by that of the final unlock: a record that is too big is dropped with status 0, and a buffer
  that is too small gives 0 with nothing read.  With debug logging `shmfifo_get` takes the
  record, sets no length and returns EINVAL (`ShmCalls.Put`, `ShmCalls.Get`).
- With debug logging in the reading process, `shmfifo_get` prints the memory status while it
  holds the lock.  The attempt to lock fails, the unlock that follows succeeds, and then the
  notification of the writer fails its ownership check and is lost.  The protocol theorems hold
  if and only if the reading process does not log at debug level, whatever the writing process
  does (`ShmProtocol.WellWithoutDebug`); otherwise `ShmProtocol.DebugLosesNotification` gives a
  run in which both processes wait for ever, for every FIFO with room for a record.
- `extpdstemplate` gives templates 13 and 14 a length of the extension that is too small for
  its entries when there is no time range (`Templates.NoTimeRanges` has the exact condition).
- `g2_addgrid` accepts a grid that announces a list of points and gives none, but `g2_unpack3`
  fails on it, and since `g2_getfld` unpacks every grid that it passes, no field behind such a
  grid can be read (`GetField.EmptyListStopsScan`).
- the octets of a message that is not finished can end in "7777"; the builder then takes it for
  a finished one and refuses every further call (`Calls.LooksFinished`).
- a bitmap that is to be used again is refused by `g2_getfld` with 17 when a field without a
  bitmap came in between, although `g2_addfield` accepts it (`GetField.SeventeenExactly`).
- `g2_pack_gp` does not look at group B anew when its extremes lie behind the points that were
  moved; it then keeps them even if group B now ends before them, and group B counts as wider
  than its values are (`PackGp.Widens`).
- a block of a product that does not fit in the heap is skipped without dropping the product,
  so that the same block can still come (`Products.TooLong`).
- The FOS header of a product has a number with a sign for product numbers from 2^31 on, and is
  cut off at eleven bytes when that makes it longer (`Products.FosHeaderWhole`).
- `g2_getfld` without unpacking gives the bitmap indicator as part of the requested field;
  for every field but the first it returns that of the field before
  (`GetField.BitmapOfEarlierField`).
- `add_time` is not right for all amounts; `Calendar.AddDaysExactly` gives the exact condition,
  `Calendar.FourYearsFail` and `Calendar.TwoCenturiesFail` concrete dates where it fails.
- a FIFO with one byte less than the bound of `Fifo.NeverBothStuck` can leave both threads
  waiting for each other (`Fifo.BothStuckWhenSmaller`).

Bit lengths are exact; the code computes `ceil(log(n+1)/log(2))` in single precision, which can
be one too small just above large powers of two.

## Model

| member | source | states |
|---|---|---|
| BitFields.Sbits | g2/gbits.c:64-124 | the output bits become the values' low bits at the n field positions, other bits as before (as `StoreAll` of the old bits) |
| BitFields.Gbits | g2/gbits.c:14-61 | reads exactly the n fields into their places of the output and touches no other entry |
| BitFields.StoreThenLoad | g2/gbits.c:33-122 | for every offset, width, gap and count, reading after storing gives each value modulo 2^width |
| BitFields.StoreKeepsTheRest | g2/gbits.c:85-122 | every bit outside the n fields is unchanged |
| Reduce.SplitGroup | g2/g2_reduce.c:345-359 | one group becomes pieces with its reference, maximum and width and together its size, written right to left into the given entries and nowhere else |
| Reduce.SplitAll | g2/g2_reduce.c:295-369 | right-to-left expansion in place: either 714, or every group in order is replaced by its pieces, no unread group having been overwritten, and every size fits the new width |
| Reduce.G2Reduce | g2/g2_reduce.c:114-396 | nothing changes exactly when there is one group only, or the total T never rises on the way down from kbit, or less than two percent are saved where it first rises; otherwise the groups are split there into the fewest pieces, of given sizes and in order, or the split is given up: 715 exactly when there is no room, 714 only for a group that cannot be cut evenly |
| Reduce.NewBoxes | g2/g2_reduce.c:163-194 | the least number of boxes that have to be added so that each holds at most 2^j-1 values |
| Reduce.ChooseWidth | g2/g2_reduce.c:156-249 | the width at which the total rises for the first time, with its boxes and its total, or none when the total never rises |
| Reduce.FirstRiseUnique | g2/g2_reduce.c:156-257 | there is one such width at most |
| Reduce.WhatPays | g2/g2_reduce.c:256-261 | a split is wanted at that width exactly when it saves two percent, and in no other case |
| Groups.SplitKeepsTotal | g2/g2_reduce.c:295-369 | splitting conserves the total number of values |
| Groups.SplitCovers | g2/g2_reduce.c:295-369 | splitting a grouping that covers the data and fits leaves one that does |
| PackGp.GroupB | g2/g2_pack_gp.c:619-764 | group B, formed anew or extended, covers its run with enough bits, has the least size and leaves no small rest; fails only for values that do not pack into 30 bits |
| PackGp.FirstGroup | g2/g2_pack_gp.c:395-601 | the first group ends at the least size, or at the end of a longer run of equal values, or takes all the data when at most lminpk/2 values would be left over; its window is exact |
| PackGp.GrowA | g2/g2_pack_gp.c:607-1172 | group A takes the next points as long as group B is at least as wide and they fit in the width of A, looking at group B after each step |
| PackGp.AddToA | g2/g2_pack_gp.c:1023-1156 | points are added to group A exactly when its width still holds them next to the reserved codes |
| PackGp.LookBack | g2/g2_pack_gp.c:795-892 | points moved from A to B fit B's unchanged width, the two stay adjacent, and it stops only at a value that does not fit |
| PackGp.TightStays | g2/g2_pack_gp.c:795-899 | a group B that takes over all of a tight group A is at least as wide: why A does not vanish |
| PackGp.CloseGroup | g2/g2_pack_gp.c:607-1232 | every pass ends, and group A is closed for one of four reasons: the data are used up; B is at least as wide and the next points do not fit in A; B is narrower and A has grown; or B is narrower and has taken all points from the end of A that fit in its width, so that A ends with a value that does not |
| PackGp.Partition | g2/g2_pack_gp.c:375-1232 | a run terminates with the groups that are closed one after the other, each for its reason and each starting as group B of the one before; they partition the data, or there are more than the table holds |
| PackGp.PartitionToFit | g2/g2_pack_gp.c:354-395 | the least size grows by half at each run that closes too many groups, and at no other; the restarts terminate, and the groups then fit the table |
| PackGp.Describe | g2/g2_pack_gp.c:1241-1395 | the entries are the widths and sizes of the groups above the least ones and the references, or the mark of groups without values; none of the three entry widths could be less |
| PackGp.G2PackGp | g2/g2_pack_gp.c:1293-1413 | unless it returns 706 (never when all values pack into 30 bits): at most ndg groups partition the data, every value lies between its group's bounds, max-min plus the reserved codes is below 2^(lbit+lbitref), entries fit ibit, jbit and kbit; the groups are those of the first run that fits the table, split where that pays, and the code says how they were found |
| Packing.IntegrateUndoes | g2/comunpack.c:280-300 | summing up first- or second-order differences gives back the values |
| Packing.ExpandSame | g2/comunpack.c:310-322 | handing values out to the places that are not missing gives back the field |
| Packing.SignedRead | g2/comunpack.c:111-127 | sign-and-magnitude numbers are read back |
| Packing.SectionRead | g2/comunpack.c:140-163 | a padded section of group descriptions is read back |
| Packing.CellsOfData | g2/comunpack.c:206-270 | reading the data of groups gives exactly the values and missing marks they were made from |
| Packing.DecodeOfStream | g2/comunpack.c:109-322 | the decoder's checks pass and it recovers the samples, for every plan of groups, widths, references and steps of lengths |
| Comunpack.TakeCodes | g2/comunpack.c:232-252 | compaction in place never overwrites a code that is still to be read |
| Comunpack.SumUp | g2/comunpack.c:280-300 | the in-place sums are the integration of the old contents |
| Comunpack.Comunpack | g2/comunpack.c:68-328 | 1 exactly when the lengths do not add up to the number of values or the codes end behind the section, and otherwise the samples that the bits mean |
| Encoder.TakeDifferences | g2/compack.c:128-148 | in-place differences lowered by the least one, none of them negative |
| Encoder.HeadWidth | g2/compack.c:153-165 | whole octets, and as few as will do, that hold the first values and the least difference with their signs |
| Encoder.HeadRead | g2/compack.c:170-209 | the differencing header is read back |
| Encoder.StreamHeader | g2/compack.c:170-209 | the octets start with the first value, for order 2 the second, and the least first or second difference, each as a sign and a magnitude in as few whole octets as hold them all |
| Encoder.ChooseGroups | g2/compack.c:228-245 | for values that fit 30 bits the group lengths are those that g2_pack_gp finds for a least size of 10, and add up to the number of values |
| Encoder.PutRefs | g2/misspack.c:382-407 | references fit the chosen width, no narrower width would do, and no reference of a group with values reaches the reserved ones |
| Encoder.PutLengths | g2/compack.c:335-359 | lengths of all groups but the last fit above the reference, the last is returned apart |
| Encoder.PutGroups | g2/compack.c:304-380 | the octets hold the whole planned stream, and the plan's fields fit their widths |
| Encoder.RoomOfAddField | g2/g2_addfield.c:310-312 | the octets that are allocated hold the packed data of any number of points with codes of 25 bits, and of up to 10950 points with codes of 30 |
| Encoder.PlanDecodes | g2/compack.c:126-414 | whatever an encoder planned and wrote, the decoder turns into the samples |
| Compack.DescribeGroup | g2/compack.c:252-275 | the reference is the least value of the group, no narrower width would do, and the codes mean the values |
| Compack.DescribeGroups | g2/compack.c:251-276 | the codes, references and widths of all groups mean the values; each reference is the least value of its group and no width could be less |
| Compack.Compack | g2/compack.c:101-414 | for every field of non-negative integers decoding the octets and template gives back every integer, for any section length from lcpack on; order 1 or 2 is kept and any other becomes 1, and the octets are the header of that order and the stream of the groups that g2_pack_gp chooses, with no field wider than it has to be, padded to lcpack octets |
| Misspack.DescribeValues | g2/misspack.c:336-358 | the reference is the least value that is there, and the width is the least that holds the values next to the reserved codes |
| Misspack.GroupMeans | g2/misspack.c:315-371 | no value takes a reserved code 2^w-1 or 2^w-2, so every code in a group means its cell |
| Misspack.ExpandedValues | g2/misspack.c:259-275 | the marks put in for missing values lie below every value, so groups are chosen on the right values |
| Misspack.Misspack | g2/misspack.c:87-531 | -1 for unknown options and nothing changed; otherwise decoding gives back every integer and every primary and secondary mark; order 1 or 2 is kept and any other becomes 2, and the octets are the header of that order and the stream of the groups that g2_pack_gp chooses, with no field wider than it has to be |
| Codec.PackAndUnpack | g2/compack.c:101-414 | compack then comunpack returns 0 and the original integers |
| Codec.PackAndUnpackMissing | g2/misspack.c:87-531 | misspack then comunpack returns 0 and the original integers and missing map |
| Fifo.ReservedApartFromLive | fifo.c:202-222 | reserved places hold no byte that waits to be read, also across the wrap |
| Fifo.CopyAppends | fifo.c:318-334 | a copy, wrapped or not, appends its bytes and keeps the others |
| Fifo.DirectAppends | fifo.c:258-282 | a direct write and update append the bytes written |
| Fifo.ReadTakesOldest | fifo.c:410-428 | a read takes the oldest bytes and leaves the rest |
| Fifo.ClosedAnswers | fifo.c:203-206 | a closed and empty FIFO answers so on both sides, whatever is asked; one that is closed but not empty still serves both |
| Fifo.Buffer.WriteReserve | fifo.c:168-229 | usage error, closed, wait or success exactly as the state says; waiting bytes unchanged |
| Fifo.Buffer.WriteInto | reader.c:104-122 | a direct write into reserved space leaves the waiting bytes alone |
| Fifo.Buffer.WriteUpdate | fifo.c:247-285 | refuses more than was reserved, otherwise appends what was written |
| Fifo.Buffer.Copy | fifo.c:299-348 | refuses more than was reserved, otherwise appends the data |
| Fifo.Buffer.Read | fifo.c:364-438 | returns the oldest bytes, or closed, or wait |
| Fifo.StepKeepsInv | fifo.c:168-477 | every step of writer, reader and closer keeps: committed = consumed + waiting bytes, reservation inside free space, and no thread waits without a signal while it could go on |
| Fifo.BytesInOrder | fifo.c:168-438 | in every interleaving the bytes read are a prefix of the bytes committed, and nbytes never exceeds size |
| Fifo.NeverBothStuck | fifo.c:192-229 | with size at least W+R-1 writer and reader are never both waiting |
| Fifo.BothStuckWhenSmaller | fifo.c:377-434 | for every smaller size that admits the requests there is a run that leaves both waiting |
| ShmRing.UsedAndFree | shmfifo.c:50-85 | used and free bytes make up the capacity; read equals write exactly when nothing is used |
| ShmRing.PutAppends | shmfifo.c:309-347 | a put that does not fill the ring appends its bytes |
| ShmRing.FullLooksEmpty | shmfifo.c:1106-1107 | a put that filled the ring would make it look empty |
| ShmRing.GetTakes | shmfifo.c:349-399 | a get takes the oldest bytes |
| ShmRing.RewindUndoes | shmfifo.c:297-307 | rewinding restores the ring after a header was read, also across the end |
| ShmRing.FirstRecord | shmfifo.c:998-1042 | a ring of whole records starts with a header whose canary and size are right |
| ShmRing.Shm.LlPut | shmfifo.c:309-347 | the one or two copies compute the specified put |
| ShmRing.Shm.LlGet | shmfifo.c:349-399 | the one or two copies compute the specified get |
| ShmRing.Shm.PutRecord | shmfifo.c:1085-1130 | the locked part: too big, no room, or the ring then holds one more whole record |
| ShmCalls.Put | shmfifo.c:1069-1139 | for every size: EINVAL for a negative one, waiting without room, and otherwise 0, whether the record was put or dropped as too big |
| ShmCalls.Get | shmfifo.c:961-1048 | for every buffer: EINVAL for a size that is not positive, waiting on an empty queue, 0 with nothing read for a buffer that is too small, the first record otherwise; with debug logging the record is taken, but no length is set, nobody is notified and EINVAL comes back |
| ShmRing.Shm.GetRecord | shmfifo.c:980-1042 | the locked part: empty, too small with the ring exactly as before, or the first record, taken off |
| ShmProtocol.StepKeepsExclusive | shmfifo.c:104-275 | at most one process inside, and no ownership check ever fails, with the getting process not at debug level |
| ShmProtocol.StepKeepsFramed | shmfifo.c:989-1130 | the ring holds whole records but for the one being moved, with the getting process not at debug level |
| ShmProtocol.StepKeepsNotified | shmfifo.c:444-557 | no notification is lost, with the getting process not at debug level |
| ShmProtocol.RecordsInOrder | shmfifo.c:961-1130 | in every interleaving, with the putting process at any log level and the getting one not at debug level, no ownership check fails and the records got are the records put, in order |
| ShmProtocol.NeverBothBlocked | shmfifo.c:444-475 | when every record is smaller than the capacity the processes never block each other, with the getting process not at debug level |
| ShmProtocol.DebugLosesNotification | shmfifo.c:277-293 | for every FIFO with room for a record, with the getting process at debug level, a run of records smaller than the FIFO exists in which ownership checks fail, the notification is lost and both processes wait for ever on an empty ring |
| ShmProtocol.WellWithoutDebug | shmfifo.c:277-293 | all runs of records smaller than the FIFO pass the ownership checks and never leave both processes waiting, if and only if the getting process does not log at debug level |
| Templates.EntryRead | g2/g2_unpack3.c:136-147 | an entry comes back if and only if it fits its octets, with sign and magnitude for negative map entries |
| Templates.EntriesRead | g2/g2_unpack4.c:114-124 | a list of entries comes back if and only if each fits |
| Templates.PutEntries | g2/g2_addgrid.c:190-199 | the packing loop writes the entries behind what is there |
| Templates.GetTemplate | g2/g2_unpack4.c:114-153 | static entries first, then the extension that they ask for |
| Templates.NoTimeRanges | g2/pdstemplates.c:228-261 | for templates 13 and 14 the extension has all its entries, time ranges and ones, if and only if there is a time range or no ones |
| Templates.TimeRangesRepeat | g2/pdstemplates.c:168-227 | product templates 8 to 12 repeat their last six entries for every time range but the first, at the places of the code tables |
| Templates.EnsembleRanges | g2/pdstemplates.c:228-261 | product templates 13 and 14 repeat the six entries of a time range and then have the ones |
| Templates.FixedWidthsRepeat | g2/gridtemplates.c:154-181 | product templates 3, 4, 30 and 31 and grid templates 120, 1000 and 1200 have as many entries more as they say, of fixed widths |
| Templates.NoExtension | g2/pdstemplates.c:152-155 | all other templates have no entries but those of the tables |
| Templates.SameExtension | g2/pdstemplates.c:145-287 | the extension depends on static entries only |
| Templates.TemplateRead | g2/g2_addfield.c:239-265 | a template comes back with its extension: the decoder computes the encoder's map |
| Message.GridComesFirst | g2/g2_addfield.c:189-204 | in a message that follows the section order a grid precedes every field |
| Message.LastSection | g2/g2_addfield.c:152-186 | the scan finds the last section, whether there is a grid and a bitmap; a finished message gives -3 |
| Message.CheckMessage | g2/g2_addlocal.c:64-112 | -1 without "GRIB", -2 exactly when the last four octets are "7777" |
| Builder.Create | g2/g2_create.c:74-125 | 37 octets that hold sections 0 and 1, or -1 for another edition |
| Builder.AddLocal | g2/g2_addlocal.c:64-145 | one section 2 more behind section 1 or 7, or an error that leaves the octets as they were |
| Builder.AddGrid | g2/g2_addgrid.c:87-242 | one section 3 more behind section 1, 2 or 7; failures keep the message |
| Builder.CountPoints | g2/g2_addfield.c:299-309 | the number of points that are packed is that of the ones of a bitmap, or of the grid without one |
| Builder.AddField | g2/g2_addfield.c:125-496 | sections 4 to 7 more behind section 3 or 7; every failure keeps the first lencurr octets and the message |
| Builder.GribEnd | g2/g2_gribend.c:62-119 | "7777" and the final length behind section 7; -3 for a finished message |
| Octets.IndicatorOctets | g2/g2_create.c:84-90 | the places of section 0: "GRIB", discipline, edition 2 and the length |
| Octets.IdentificationOctets | g2/g2_create.c:94-122 | the places of the thirteen entries of section 1 |
| Octets.GridOctets | g2/g2_addgrid.c:146-234 | the places of length, number, source, number of points, list and template number in section 3 |
| Octets.ProductOctets | g2/g2_addfield.c:208-283 | the places of the number of coordinates and the template number in section 4 |
| Octets.RepresentationOctets | g2/g2_addfield.c:394-428 | the places of the number of points and the template number in section 5 |
| Octets.BitmapOctets | g2/g2_addfield.c:430-470 | the place of the indicator in section 6, and one bit for every point behind it |
| Calls.CountsAreCalls | g2/g2_info.c:181-188 | the sections that are counted are the successful calls, in any order of calls |
| Calls.Perform | g2/g2_addfield.c:125-496 | a call succeeds if and only if `Accepts` says so, from the message and its arguments alone, and then appends its sections; otherwise the message and its octets stay |
| Calls.Build | g2/g2_gribend.c:62-119 | after g2_create, any calls in any order and g2_gribend, the octets hold the message of exactly the calls that are accepted in their turn, with sections in order and lengths that add up; it is finished if and only if it ends with section 7 |
| Calls.BuildAndInfo | g2/g2_info.c:80-198 | g2_info then returns 0, the numbers of accepted g2_addfield and g2_addlocal calls, and the values of section 1 if and only if they fit their octets |
| Info.Info | g2/g2_info.c:80-198 | on a finished message 0, with the numbers of fields and local sections and the values of section 1 |
| Unpack.Unpack3 | g2/g2_unpack3.c:86-213 | the grid and its list of points as they were added; 6 exactly when a list is announced and none was given |
| Unpack.Unpack4 | g2/g2_unpack4.c:76-185 | the product template and the coordinates as they were added |
| Unpack.Unpack5 | g2/g2_unpack5.c:67-150 | the representation template as it was added |
| Unpack.Unpack6 | g2/g2_unpack6.c:51-97 | the bitmap indicator and the bitmap as they were added; 6 for a bitmap over a grid without points |
| GetField.GetFld | g2/g2_getfld.c:270-538 | on the message of any calls, with or without unpacking: 3, 1, the error of the first grid or bitmap on the way that cannot be unpacked, 6 exactly for k beyond the field calls, and otherwise all arguments of the k-th field call with the grid, local data and bitmap in force and the octets of its data |
| GetField.GridAndBitmap | g2/g2_getfld.c:354-466 | with unpacking, the grid and the local data are those of the last calls before the field, and the bitmap is its own, that of the last field call that brought one when all between them used it again, or none |
| GetField.SeventeenExactly | g2/g2_getfld.c:438-456 | a field that uses a bitmap again gives 17 exactly when no bitmap is in force, that is, none was given or a field without one came in between |
| GetField.ThirteenExactly | g2/g2_getfld.c:438-461 | the scan gives 13 exactly when it comes to a bitmap for a grid without points before anything else fails |
| GetField.BitmapOfEarlierField | g2/g2_getfld.c:438-526 | without unpacking, the bitmap indicator that comes back is that of the field before, for every field but the first |
| GetField.TenReturned | g2/g2_getfld.c:375-393 | 10 exactly when the scan comes to a grid call that announces a list and gives none, before anything else fails |
| GetField.TenExactly | g2/g2_getfld.c:375-393 | the same for the scan; without unpacking exactly when there is such a call on the way |
| GetField.EmptyListStopsScan | g2/g2_unpack3.c:193-202 | behind one accepted grid call with an empty list, whatever follows, every request gives 10 |
| GetField.BuildAndGetFld | g2/g2_getfld.c:270-538 | the same as GetFld behind a whole run of builder calls, failing ones included |
| Resync.ReadSbn | readsbn.c:9-74 | accepts exactly 16 bytes with start 255, a known command and the right checksum, and says what their bytes say |
| Resync.Source.Slide | productMaker.c:171-197 | sliding the window skips no place where a header starts |
| Resync.Source.FindHeader | productMaker.c:150-204 | finds the leftmost header at or after the position, with the numbers of its bytes, or there is none; terminates |
| Products.StrippedIsData | productMaker.c:650-666 | only whole trailers are taken off the end |
| Products.FosHeaderWhole | productMaker.c:499-504 | the header is whole, with the number in three digits, for all product numbers below 2^31, and cut off only for a sign and three digits |
| Products.ProductMaker.Handle | productMaker.c:389-750 | after any packets, a product comes out at the next one if and only if the packets since the last header are a chain of one number and consecutive blocks up to the last block, each of which fits in the heap, with nothing between but ignored packets and blocks that did not fit; and it is the product of that chain |
| Products.StepKeepsInv | productMaker.c:439-750 | a product is in progress if and only if the packets end with such an unfinished chain, and the state is that of the chain |
| Products.ProductsAreWholeChains | productMaker.c:439-750 | in every run the products are exactly those of the whole chains: the FOS header, their payloads and one trailer; the digest covers all but the header |
| Products.TooLong | productMaker.c:668-677 | a block that does not fit leaves everything as it was, so that it can come again; a header that does not fit leaves no product in progress |
| Calendar.NextDayNumber | wgrib.c:2841-2848 | day numbers grow by one from each day of the calendar to the next |
| Calendar.NumberTellsDate | wgrib.c:2841-2848 | the day number determines the date |
| Calendar.MonthOf | wgrib.c:2940-2952 | month and day for every positive day of the year; off the table otherwise |
| Calendar.UnitsMean | wgrib.c:2859-2908 | what each unit stands for in years or hours; seconds and minutes count as whole hours, toward zero |
| Calendar.Clock.AddDays | wgrib.c:2915-2956 | a valid date the given number of days away, up to the century marks that one correction misses |
| Calendar.Clock.AddTime | wgrib.c:2851-2960 | every unit: years, months, hours and days, with the exact condition for the last two and the status in each case |
| Calendar.AddDaysExactly | wgrib.c:2915-2956 | the date n days later if and only if the condition on year and day number holds |
| Calendar.ExactBelowCentury | wgrib.c:2921-2933 | below 25 four-year spans only multiples of 1461 days go wrong |
| Calendar.FourYearsFail | wgrib.c:2921-2951 | from 2001-01-01, 1460 days run off the month table |
| Calendar.TwoCenturiesFail | wgrib.c:2926-2930 | 73050 days from 1801-01-01 are 2001-01-02, and the code gives 2001-01-01 |

## Left out

- Floating point: scaling to and from integers, IEEE conversion, and the percentage in `g2_reduce`, which is an integer inequality here.
- `g2/g2_reduce.c` line 258 when no width makes the total grow: it reads an array element before the first one; the model leaves the groups as they are.
- The return code 706 of `g2_pack_gp`, which both encoders ignore: their contracts ask for values that fit 30 bits.
- 32-bit wrap-around: values and lengths are bounded instead.
- Compack.Compack, Misspack.Misspack: scaled integers below 2^30, also after differencing and next to the reserved codes; the buffer has room for codes of the least width w that holds them all (`Encoder.Roomy`), and what `g2_addfield` allocates is enough for w up to 25, or for up to 10950 points (`Encoder.RoomOfAddField`).
- Reduce.G2Reduce: sizes of pieces may be zero, as in the code.
- PackGp.G2PackGp: groups without values can come out when values are missing, as in the code; only the last group is known to have some.
- Builder.AddField: the JPEG2000, PNG, simple and spectral packings, and the data values; the result of the packing is an argument.
- Comunpack.Comunpack, Codec.PackAndUnpack, Codec.PackAndUnpackMissing: values stay scaled integers and missing values stay marks.
- Encoder.HeadWidth: exact bit lengths, as said above.
- The template tables; the builder and the reader take what the tables know as an argument.  The loops of `extpdstemplate` and `extgridtemplate` are given as the functions that they compute; entries written behind the length that they give are left out.
- Builder.AddGrid: a grid that no template describes (`igds[0]` not 0).
- GetField.GetFld, GetField.BuildAndGetFld: templates that the reader does not know or that have no entries (codes 11 and 12), arguments that do not fit their octets, bitmaps that do not have a bit for every point of their grid, and the unpacking of the data octets (code 14), which `Comunpack` models; section 1, which `Info.Info` reads.
- Info.Info: messages that are damaged or not finished, with the codes 2 to 6; the search for "GRIB" stops at the end of the array; the code relies on 103 octets being there.
- Operating system failures of mutexes, condition variables and semaphores, and the usage errors that they report.
- Draining a closed FIFO: a reader that wants more than the remaining bytes waits for ever.
- ShmProtocol.NeverBothBlocked: records as large as the whole FIFO, which wait for ever, and records without data, which abort the reader.
- Resync.Source.FindHeader: a read beyond the end of the stream fails here, where the FIFO would wait.
- Products.ProductMaker.Handle: decoding of the packet headers, GOES images, other datastreams, and control blocks longer than their data; `prodalloc` and `ds_alloc` are not part of this model.  The number of heap bytes in use is kept from packet to packet, which the code relies on.
- Sockets, files, the LDM queue, logging (but for its locking in `shmfifo.c`), statistics, option parsing and the GEMPAK tables.
