# Models of the board support layer

This project models the pieces of an Android board support layer that hold real algorithms or
protocols, and proves what they promise, or exactly when they keep it.

- **EXIF** (`Bytes`, `ExifTiff`, `ExifLayout`, `ExifWriter`, `ExifProcessor`, `ExifReader`, `ExifTags`): the serializer
  that writes four linked IFDs into one byte buffer with an entry cursor and a value offset, a reader written from TIFF
  6.0 section 2 and Exif 2.2 sections 4.5 to 4.7 alone, and what it finds under each literal tag.
- **Boot flash** (`Octets`, `Crc`, `Flash`, `FlashUpdate`, `FlashBytes`): the SPI driver over a NOR flash (erase sets
  bits, program clears them and wraps in its page, both need write-enable), the updater, its checksum, and a boot
  reader.
- **Camera threads** (`StreamThread`, `StreamTiming`): the start/stop protocol between a controller and a worker over
  one state word that both write with a read and a compare-and-swap. Between any two accesses of the controller the
  worker makes any number of steps, taken from a schedule; results hold for every schedule.
- **Buffer circulation** (`NxStream`, `StreamClients`): window, stream queue and capture driver.
- **Audio routing** (`AudioRoute`, `AudioSelect`): the shadow of the mixer, the paths, and the choice of paths.
- **Audio streams** (`AudioOutput`, `Capture`, `CaptureRamp`): output streams that share one card, the in-place capture
  provider under any resampler, the read call, and the volume ramp.
- **Motion JPEG** (`Mjpeg`): the insertion of missing Huffman tables (ITU-T T.81, sections B.1.1.4 and B.2.4.2).
- **NMEA** (`Nmea`): line framing with resynchronisation.
- **Display ring** (`DisplayRing`) and **zoom** (`Zoom`): slot accounting, crop arithmetic, plane sizes, addresses.
- `Options` and `Arithmetic` are shared helpers.

Devices are small classes whose answers are given from outside (a request may fail, a window offers any buffer that it
has), so that a contract holds for all of them and says what follows from each. The state of a driver is a value where
that is the clearest form (`Flash.Chip`, `StreamThread.World`, `Nmea.Reader`); the imperative code is tied to it by
contract and the results are lemmas about it.

## What the code does not keep

Each of these is stated exactly, with a lemma named in the table.

- The APP1 length of a TIFF part of 65528 to 65536 bytes wraps, although the 64K test lets it pass.
- Maker, model and software names below four characters are misread by a TIFF reader: they are always written behind an
  offset. (A single character that happens to be the offset survives.)
- No user comment is stored in full: its length is taken after a code that starts with NUL has been put in front, so
  only the code and one byte are written, and a second serialization loses even that byte.
- A user comment of more than 141 characters is moved past its buffer, over the pixel dimensions that are then written
  into the Exif IFD (camera/NXExifProcessor.cpp:306-314, camera/Exif.h:453-456). No code in the repository sets one: the
  only text is the default (camera/Exif.h:156, 323).
- Without a destination handle the reported size is two too large: it counts an SOI marker that was not written.
- `stop(false)` is not safe against a worker at work: there is a schedule in which the worker touches the stream after
  the flush. No code in the repository does this: the only calls are those of the capture worker itself
  (camera/CaptureThread.cpp:472, 522), which then returns.
- A `stop(true)` that ends with its worker still at work can never be repeated: the state is EXIT, which the worker does
  not look for.
- A worker that ends without writing EXIT (its `readyToRun` fails, or it records and the driver gives no buffer) leaves
  the state at RUNNING: later starts report success without a thread, and a `stop(true)` waits in vain and flushes
  nothing.
- Recording without an output keeps the microphone of the last request with the same route id.
- A capture read never reports an error: the client is told that its buffer is full. What was not written keeps its old
  content only if the start failed or the ramp is over; otherwise the ramp is applied to it, and so in the first 100 ms.
- A failed read is not muted. A resampled read that asks the card for nothing fails again if the read before it failed.
- A single-channel capture at the device's own rate is handed both channels, interleaved.
- A playback stream whose device was not ready goes on pointing at the closed device and asks it for its position.
- The position of a playback stream never counts what was written: it is the driver's room less the buffer's size, so
  for a driver that reports no more room than that it is zero or an error.
- A crop inside the base picture sticks out of a frame whose width is no multiple of 32 when its scaled left edge is past
  the last multiple of 32 in the frame.
- The checksum of a boot image misses a burst of 27 bits, the polynomial itself; of shorter ones it misses none.
- A motion-JPEG frame that does not start with SOI is taken if one of its first two bytes happens to be right.
- An NMEA line of exactly 83 bytes takes the next line with it.
- A display plane whose dequeue is refused once when the ring is full plays nothing more until a message without a
  handle for it, and with one for the other plane, succeeds in stopping its stream; a message without any handle is
  dropped. A plane whose start failed late is never started by any message. (This is the HDMI thread by itself. In the
  build that has it the composer also switches streams off behind it, hwc/hwc.cpp:1202, 1263, which empties the driver
  without the thread's accounting being told.)
- Planes of 4:2:2 buffers are too small when the width is up to 64 past a multiple of 128, unless the rows that the
  height is rounded up by make good for it; for heights that are multiples of 16, such as 720, there are none.
- The chroma rows of 4:4:4 planes overlap for every width beyond 64.

## Model

| member | source | states |
|---|---|---|
| `ExifReader.RoundTrip` | camera/NXExifProcessor.cpp:227-418 | The file read back by a reader that follows header, Exif pointer, GPS pointer and next-IFD link is the attribute record, tag by tag, the whole comment included, if and only if the TIFF part is at most 65527 bytes, the three names are ones that read back, and the comment is empty |
| `ExifReader.FileExact` | camera/NXExifProcessor.cpp:227-418 | Comment aside: the same reader finds the record's four directories if and only if the TIFF part is at most 65527 bytes and the three names are ones that read back, and then the Exif IFD is the 22 fields that were written |
| `ExifReader.TiffExact` | camera/NXExifProcessor.cpp:253-402 | The same for the TIFF part alone, whatever its size below 4 GB: exact if and only if no short string of the 0th IFD is misread |
| `ExifReader.DetailsExact` | camera/NXExifProcessor.cpp:289-321 | The Exif IFD that is written means what the record says, the whole comment and the pixel dimensions included, if and only if the comment is empty |
| `ExifReader.CommentLost` | camera/NXExifProcessor.cpp:306-310 | Failure for every record with a comment: the file does not read back as the record, and the field that is written holds the code and the first byte only |
| `ExifReader.DefaultComment` | camera/Exif.h:156-156 | Concrete failure: of the default comment only the first letter is stored |
| `ExifLayout.CommentExact` | camera/NXExifProcessor.cpp:306-310 | The comment field that is written is the code and the whole text if and only if the text is empty |
| `ExifLayout.PixelsKept` | camera/NXExifProcessor.cpp:306-314 | Moving the text back by the size of the code leaves width and height alone if and only if it has at most 141 characters, or what spills over spells the same bytes |
| `ExifLayout.PixelsLost` | camera/NXExifProcessor.cpp:306-314 | Concrete failure: a text of 149 letters overwrites both |
| `ExifReader.SegmentExact` | camera/NXExifProcessor.cpp:404-414 | The APP1 length delimits exactly the TIFF part if and only if that has at most 65527 bytes; above, the 16-bit length has wrapped |
| `ExifReader.LengthWraps` | camera/NXExifProcessor.cpp:394-411 | Concrete failure: one byte more than that passes the 64K test, keeps the thumbnail and cannot be read, whatever the Exif IFD is taken for |
| `ExifReader.MainSpelled` | camera/NXExifProcessor.cpp:266-270 | The strings of the 0th IFD read back exactly when each name has four or more characters, or is the one character its own offset spells |
| `ExifReader.NameExact` | camera/NXExifProcessor.cpp:266-269 | The same for one name: the offset form of a value of four bytes or fewer is misread by TIFF's size rule |
| `ExifReader.ShortMaker` | camera/NXExifProcessor.cpp:266-266 | Concrete failure: a maker of two letters |
| `ExifReader.CutShort` | camera/NXExifProcessor.cpp:408-411 | No shorter segment of the file reads back as the record |
| `ExifReader.MainExact` | camera/NXExifProcessor.cpp:253-278 | The 0th IFD and its link read back exactly when its strings do |
| `ExifReader.DetailsBack` | camera/NXExifProcessor.cpp:281-321 | The Exif IFD always reads back as its 22 fields |
| `ExifReader.GpsBack` | camera/NXExifProcessor.cpp:324-362 | The GPS IFD is found through its patched pointer and reads back, or is absent |
| `ExifReader.ThumbBack` | camera/NXExifProcessor.cpp:366-402 | The thumbnail IFD is found through the patched link and reads back with the JPEG bytes, or is absent |
| `ExifReader.BlocksInPlace` | camera/NXExifProcessor.cpp:280-393 | Every directory with its values is one unbroken block at the offset that points to it: no write overlaps another |
| `ExifReader.Fallback` | camera/NXExifProcessor.cpp:394-398 | A thumbnail that makes the TIFF part larger than 64K leaves the very bytes of a record without thumbnail |
| `ExifReader.FrontBound` | camera/NXExifProcessor.cpp:200-218 | Without a thumbnail the TIFF part stays below 8192 bytes, well inside EXIF_FILE_SIZE |
| `ExifReader.SecondRun` | camera/NXExifProcessor.cpp:306-310 | Serializing the record again, as the first run left it, writes the same Exif IFD if and only if the comment was empty |
| `ExifTags.FileTags` | camera/NXExifProcessor.cpp:264-318 | Whatever is read of a written file, each attribute of the 0th and of the Exif IFD is the value of the first entry under its own Exif 2.2 tag, with its type; tags and types are literals, and the decoders of the statement are its own |
| `ExifTags.FileOptions` | camera/NXExifProcessor.cpp:339-390 | The same for each attribute of the GPS IFD and of the thumbnail's; the IFDs are there exactly if the position is enabled, and if there is a thumbnail |
| `ExifTags.FileStart` | camera/NXExifProcessor.cpp:404-414 | A file starts with SOI, APP1, the Exif signature and a little-endian TIFF header whose first IFD is at 8 |
| `ExifTags.FileIsTiff` | camera/NXExifProcessor.cpp:404-414 | Whatever is read of a file is what is read of its whole TIFF part, even where the APP1 length has wrapped |
| `ExifTags.TiffClose` | camera/NXExifProcessor.cpp:253-402 | A reader of the TIFF part finds every entry of each IFD as it was written, but for names of fewer than four characters in the 0th |
| `ExifTags.ReadBlockClose` | camera/NXExifProcessor.cpp:283-321 | The same for one directory |
| `ExifTags.DetailsAscending` | camera/NXExifProcessor.cpp:289-318 | The tags of the Exif IFD ascend, so that no entry hides another |
| `ExifTiff.ReadEntryExact` | camera/NXExifProcessor.h:117-169 | One entry and its outside bytes read back as the field if and only if the form that was chosen agrees with TIFF's size rule, or the offset spells the value |
| `ExifTiff.ReadEntriesExact` | camera/NXExifProcessor.h:117-169 | The same for a whole list of entries |
| `ExifTiff.ReadBlockExact` | camera/NXExifProcessor.cpp:283-321 | The same for a directory: count, entries, link and values |
| `ExifLayout.LayoutSizes` | camera/NXExifProcessor.cpp:262-287 | Sizes and offsets of the IFDs agree with the sizes of their blocks |
| `ExifLayout.TiffSize` | camera/NXExifProcessor.cpp:366-398 | The size of the TIFF part, with and without a thumbnail |
| `ExifLayout.CloseMain` | camera/NXExifProcessor.cpp:324-325 | Writing the GPS pointer into the hole left for it completes the 0th IFD and nothing else |
| `ExifLayout.SetLink` | camera/NXExifProcessor.cpp:367-368 | Patching the next-IFD link changes those four bytes only |
| `ExifLayout.FrontIsTiff` | camera/NXExifProcessor.cpp:248-362 | Header, 0th, Exif and GPS IFD written one after the other are the front of the TIFF part |
| `ExifLayout.StrLen` | camera/NXExifProcessor.cpp:266-269 | strlen: no NUL before it, NUL at it |
| `ExifWriter.Advance` | camera/NXExifProcessor.h:145-156 | Two cursors, one gap: an entry written at the first and values at the second move both ends of the gap and disturb nothing |
| `ExifWriter.LayoutStep` | camera/NXExifProcessor.h:145-169 | One writeExifIfd call extends the directory by exactly one field |
| `ExifWriter.OpenLayout` | camera/NXExifProcessor.cpp:283-287 | An entry count written behind a finished part opens an empty directory |
| `ExifWriter.Cursor.PutEntry` | camera/NXExifProcessor.h:146-153 | The twelve bytes of an entry, and nothing around them |
| `ExifWriter.Cursor.WriteWord` | camera/NXExifProcessor.h:117-126 | Immediate value: one more field, no more values |
| `ExifWriter.Cursor.WriteShort` | camera/NXExifProcessor.h:128-143 | Up to four bytes in the entry; a longer value is dropped |
| `ExifWriter.Cursor.WriteLong` | camera/NXExifProcessor.h:145-156 | Bytes behind an offset, and the offset moves by their number |
| `ExifWriter.Cursor.WriteRatio` | camera/NXExifProcessor.h:158-169 | Rationals behind an offset, eight bytes each |
| `ExifWriter.Cursor.WriteLink` | camera/NXExifProcessor.cpp:319-321 | The link that closes a directory |
| `ExifWriter.Cursor.BeginDirectory` | camera/NXExifProcessor.cpp:281-287 | The next directory starts right behind the values of the last |
| `ExifWriter.Cursor.Patch` | camera/NXExifProcessor.cpp:325-325 | A write into an earlier directory leaves the open one alone |
| `ExifProcessor.Processor.WriteIfd0` | camera/NXExifProcessor.cpp:264-272 | The fields of the 0th IFD in order, the Exif pointer being the offset reached |
| `ExifProcessor.Processor.WriteExifIfd` | camera/NXExifProcessor.cpp:289-321 | The 22 fields of the Exif IFD; the comment buffer, and with a long text the pixel dimensions behind it, are overwritten on the way |
| `ExifProcessor.Processor.WriteComment` | camera/NXExifProcessor.cpp:306-310 | The comment field is the code and one more byte, and the buffer keeps the prefix |
| `ExifProcessor.Processor.WriteGpsIfd` | camera/NXExifProcessor.cpp:339-361 | The nine or ten fields of the GPS IFD |
| `ExifProcessor.Processor.WriteThumbIfd` | camera/NXExifProcessor.cpp:378-390 | The nine fields of the thumbnail IFD, the last two naming place and size of the JPEG |
| `ExifProcessor.Processor.WriteThumbnail` | camera/NXExifProcessor.cpp:366-398 | Thumbnail appended and linked, or taken back when the TIFF part would exceed 64K |
| `ExifProcessor.Processor.ProcessExif` | camera/NXExifProcessor.cpp:227-418 | Whatever the buffer held, it starts with exactly the specified file, OutSize is its size (two too many without a destination handle), and no write leaves EXIF_FILE_SIZE plus thumbnail |
| `Crc.GetFcs` | spi_update/update.c:21-31 | The loop computes eight steps of the register on the byte added to it |
| `Crc.StepLinear` | spi_update/update.c:28-28 | One step is linear over GF(2), although the polynomial is added before the shift |
| `Crc.StepInjective` | spi_update/update.c:28-28 | and injective on 26-bit states |
| `Crc.FoldReduced` | spi_update/update.c:198-200 | A checksum that starts at zero stays below 2^26 |
| `Crc.FoldInjective` | spi_update/update.c:198-200 | No two states meet again, whatever bytes follow |
| `Crc.CrcLinear` | spi_update/update.c:21-31 | The checksum of the sum of two images is the sum of their checksums |
| `Crc.BitsAtOnce` | spi_update/update.c:21-31 | Up to 26 bits taken one by one act as their word taken at once |
| `Crc.FoldBits` | spi_update/update.c:21-31 | Feeding bytes is feeding their bits, lowest first |
| `Crc.BitWordInjective` | spi_update/update.c:27-28 | Up to 26 bits are determined by their word |
| `Crc.DetectsBurst` | spi_update/update.c:198-200 | Two images of the same length that differ only within 26 consecutive bits have equal checksums if and only if they are equal |
| `Crc.Unnoticed` | spi_update/update.c:28-28 | Concrete failure: the polynomial itself, a burst of 27 bits |
| `Crc.BurstExact` | spi_update/update.c:198-200 | So every burst of up to so many bits is noticed if and only if these are at most 26 |
| `Flash.WithinPage` | spi_update/spieeprom.c:188-200 | On a program that stays in its page the wrap-around of the page buffer makes no difference |
| `Flash.ClearedTwice` | spi_update/spieeprom.c:232-234 | Two adjacent programs are one longer program |
| `Flash.WriteSize` | spi_update/spieeprom.c:190-200 | Each transfer is as long as the rest of the page or of the data, and never crosses the page |
| `Flash.EraseThenProgram` | spi_update/update.c:217-221 | An erased block that is programmed holds the data, and ones behind them |
| `Flash.PutAddress` | spi_update/spieeprom.c:202-212 | The three address bytes decode to the address modulo 2^24 |
| `Flash.EepromWriteEnable` | spi_update/spieeprom.c:158-176 | The enable latch is set, nothing else |
| `Flash.EepromBlkErase` | spi_update/spieeprom.c:87-131 | With the latch set exactly the 32K block of the address is erased; without it nothing is |
| `Flash.WritePage` | spi_update/spieeprom.c:188-225 | One turn of the loop: enable, address, copy, send |
| `Flash.EepromWrite` | spi_update/spieeprom.c:178-246 | For every destination and positive size: terminates, clears exactly the zero bits of the data in the range, changes nothing else, no transfer wraps in a page, no command is refused |
| `Octets.ByteValue` | spi_update/spieeprom.c:99-99 | A number stored in a byte is the number modulo 256 |
| `Octets.NumberBack` | spi_update/update.c:205-205 | A 32-bit number stored low byte first reads back |
| `Octets.WordBack` | spi_update/update.c:208-208 | A 32-bit word stored low byte first reads back |
| `FlashUpdate.MakeHeader` | spi_update/update.c:191-208 | The 512-byte header: all ones but size, addresses, address step, checksum and signature at their places |
| `FlashUpdate.Checksum` | spi_update/update.c:198-200 | The loop computes the checksum of the image |
| `FlashUpdate.WriteBlock` | spi_update/update.c:217-221 | One erase block is replaced in full, erased before or not |
| `FlashUpdate.WriteBlocks` | spi_update/update.c:214-227 | All blocks that hold header and image are replaced; nothing outside them changes |
| `FlashUpdate.UpdateUboot` | spi_update/update.c:188-227 | Flash from 64K on is header, image, and what lay behind the buffer up to the end of the block |
| `FlashUpdate.WritePages` | spi_update/update.c:181-185 | Sixty-four page writes store the first-stage image |
| `FlashUpdate.UpdateSecboot` | spi_update/update.c:168-186 | The checksum goes into the caller's buffer at 16368, the first 16K of flash hold the buffer, the next 16K are erased |
| `FlashUpdate.UpdateFromMem` | spi_update/update.c:148-239 | Open failure changes nothing; an update leaves exactly the new image for a boot reader, and the other image as it was |
| `FlashUpdate.UbootReadBack` | spi_update/update.c:188-227 | A boot reader that goes by signature, load_size and crc32 finds exactly the image and its addresses, whatever was in flash or behind the buffer |
| `FlashUpdate.SecbootReadBack` | spi_update/update.c:168-186 | The reader of the first-stage image accepts exactly it |
| `FlashBytes.HeaderNumbers` | spi_update/update.c:203-207 | The header at literal places: size, load and jump address, address step |
| `FlashBytes.HeaderChecks` | spi_update/update.c:206-208 | and checksum and signature |
| `FlashBytes.HeaderOnes` | spi_update/update.c:201-201 | All else of it is ones |
| `FlashBytes.UbootAt` | spi_update/update.c:201-227 | Every byte of the flash after a second-stage update: header at 64K, image behind it, what lay behind the buffer up to the end of the block; all else is as it was |
| `FlashBytes.SecbootAt` | spi_update/update.c:168-186 | Every byte after a first-stage update: the first 16368 bytes of the buffer, their checksum, the rest of 16K, ones up to 32K; all else is as it was |
| `FlashUpdate.SecbootSparesUboot` | spi_update/update.c:176-185 | Writing the first image keeps the second |
| `FlashUpdate.UbootSparesSecboot` | spi_update/update.c:214-227 | and the other way round |
| `FlashUpdate.BurstRejected` | spi_update/update.c:198-208 | An accepted image damaged only within 26 consecutive bits is accepted if and only if it is undamaged |
| `StreamThread.NXStreamThread.SetState` | camera/NXStreamThread.h:121-123 | Read, then compare-and-swap, with any worker steps in between: the write may be lost |
| `StreamThread.NXStreamThread.Start` | camera/NXStreamThread.cpp:157-187 | start, with any worker steps between any two of its accesses, is the function Started |
| `StreamThread.NXStreamThread.Stop` | camera/NXStreamThread.cpp:189-224 | stop likewise is the function Stopped |
| `StreamThread.WorkerDrifts` | camera/NXStreamThread.h:19-38 | Any run of worker steps: the state changes only to EXIT and only by a worker on its way out; a worker on its way out touches nothing |
| `StreamThread.SetLosesToExit` | camera/NXStreamThread.h:121-123 | A write of the controller is lost only to an EXIT of a worker on its way out |
| `StreamThread.SetToRunning` | camera/NXStreamThread.cpp:181-184 | The write of RUNNING after a spawn is never lost |
| `StreamThread.WaitedOut` | camera/NXStreamThread.cpp:196-204 | If the wait ends with time left, the worker is out of its loop |
| `StreamThread.StopKeepsSound` | camera/NXStreamThread.cpp:189-224 | stop always leaves EXIT, and keeps: since a waiting flush the worker is out of its loop |
| `StreamThread.StartKeepsSettled` | camera/NXStreamThread.cpp:157-187 | start reports success if and only if it leaves RUNNING, and with one controller never gives up waiting |
| `StreamThread.StopSafety` | camera/NXStreamThread.cpp:157-224 | All schedules, all sequences of calls: after a flush by stop(true) the stream is not touched before the next spawn |
| `StreamThread.StopExact` | camera/NXStreamThread.cpp:189-224 | From every settled state with a worker at work: under all schedules and all later calls the stream is not touched between the flush and the next spawn if and only if the stop waits |
| `StreamThread.NoWaitUnsafe` | camera/NXStreamThread.cpp:196-217 | Concrete run, from the start, in which stop(false) flushes and the worker touches the stream afterwards |
| `StreamThread.FlushExact` | camera/NXStreamThread.cpp:189-217 | From every state that is RUNNING: a stop that waits flushes under some schedule if and only if the worker is at work, leaving, or about to write EXIT over a state that is not EXIT already |
| `StreamThread.StartExact` | camera/NXStreamThread.cpp:157-187 | From every state that is RUNNING: a start reports success and leaves no worker at work, under every schedule, if and only if the worker is out of its loop and will not write EXIT over RUNNING |
| `StreamThread.QuitUnnoticed` | camera/RecordThread.cpp:142-159 | A worker that ended without writing EXIT: under every schedule start reports success and makes no thread, and a stop that waits flushes nothing |
| `StreamThread.QuitRun` | camera/RecordThread.cpp:86-159 | Concrete runs from the start that end so: a worker that is not ready, and one whose driver gives no buffer |
| `StreamThread.GivesUp` | camera/NXStreamThread.cpp:196-217 | Which schedules end so: a stop that waits gives its worker up if and only if the worker, moved by the schedule alone and asked to leave while it is waited for, never leaves its loop; and then it flushed nothing |
| `StreamThread.OrphanForever` | camera/NXStreamThread.cpp:157-224 | A worker that was given up: as long as it meets no error no later call stops it, flushes or starts another |
| `StreamThread.GivenUpForever` | camera/NXStreamThread.cpp:157-224 | So every stop(true) that ends with the worker at work is final in that sense |
| `StreamThread.TimedOutStop` | camera/NXStreamThread.cpp:196-209 | Concrete run: a worker that makes no step while it is waited for |
| `StreamTiming.FlushedExact` | camera/NXStreamThread.cpp:189-217 | Every state and every schedule: a stop that reads EXIT does nothing; one that waits flushes if and only if the fifth look after the exit was asked for would see EXIT; one that does not wait always flushes; and the state is EXIT at the end |
| `StreamTiming.PollExact` | camera/NXStreamThread.cpp:199-203 | The poll leaves something of its bound if and only if its last look but one sees EXIT |
| `StreamTiming.StartedExact` | camera/NXStreamThread.cpp:157-187 | Every state and every schedule: a start that reads RUNNING does nothing; any other gives up if and only if the twelfth look still sees a pending exit, and else makes a worker and leaves RUNNING if and only if the stream is known, a thread can be had and the last worker is gone by then |
| `StreamTiming.AwaitExact` | camera/NXStreamThread.cpp:162-167 | The wait in start ends at the first look that sees no pending exit, or at the eleventh |
| `StreamTiming.SetFromExit` | camera/NXStreamThread.cpp:181-184 | After a spawn the state is RUNNING whatever the new worker does meanwhile |
| `NxStream.ReversedFirst` | include/NXQueue.h:18-27 | The oldest element of the push-front vector is its last |
| `NxStream.NXQueue.Queue` | include/NXQueue.h:18-20 | One more element, newest |
| `NxStream.NXQueue.Dequeue` | include/NXQueue.h:22-27 | The oldest element, removed |
| `NxStream.NXQueue.GetHead` | include/NXQueue.h:29-31 | The oldest element |
| `NxStream.NXQueue.GetItem` | include/NXQueue.h:45-47 | Elements are numbered from the newest |
| `NxStream.TakeHead` | camera/NXStream.cpp:57-83 | Giving the oldest buffer back keeps every buffer in one place |
| `NxStream.PutTail` | camera/NXStream.cpp:44-55 | Taking a buffer from the window likewise |
| `NxStream.NXStream.RegisterBuffer` | camera/NXStream.cpp:15-24 | The registered buffers, and no last one |
| `NxStream.NXStream.FindBufferIndex` | camera/NXStream.cpp:117-126 | The first place of a registered buffer, or a negative number |
| `NxStream.NXStream.DequeueBuffer` | camera/NXStream.cpp:44-55 | A buffer that the window offers and that is registered moves to the queue's tail; one that is not registered is dropped; anything else changes nothing |
| `NxStream.NXStream.InitBuffer` | camera/NXStream.cpp:26-42 | Once: the window's offers go into the queue in order, up to MaxBuffers of them or the first that is none or not registered; conservation |
| `NxStream.StockedOnce` | camera/NXStream.cpp:26-42 | So the window's offers determine the queue |
| `NxStream.NXStream.EnqueueBuffer` | camera/NXStream.cpp:57-83 | The oldest buffer is published if and only if it is registered and the window accepts it, and is with the window either way; one that is not registered is dropped; conservation |
| `NxStream.NXStream.CancelBuffer` | camera/NXStream.cpp:85-99 | The oldest buffer goes back if it is registered; conservation |
| `NxStream.NXStream.FlushBuffer` | camera/NXStream.cpp:101-115 | Terminates with an empty queue, every queued buffer back with the window |
| `StreamClients.Exchanged` | camera/PreviewThread.cpp:241-295 | Head out, new tail in under the head's number: driver and queue stay in step |
| `StreamClients.EachIndexOnce` | camera/PreviewThread.cpp:202-210 | The numbers in the driver are a permutation of 0..n-1 |
| `StreamClients.ShownNext` | camera/PreviewThread.cpp:253-280 | One more frame taken, one more shown, but for the first few |
| `StreamClients.QueueAll` | camera/PreviewThread.cpp:194-210 | The i-th oldest buffer goes into the driver under the number i; it succeeds exactly if the driver takes every request |
| `StreamClients.PreviewThread.ReadyToRun` | camera/PreviewThread.cpp:109-226 | A worker is ready exactly if formats are set and the driver takes every request, and then starts in step |
| `StreamClients.PreviewThread.ThreadLoop` | camera/PreviewThread.cpp:228-303 | From the answers of driver, window and state word: a delivered frame that is not skipped is published if and only if no exit is pending, its buffer is registered and the window accepts it, whatever happens then; a pass goes on if and only if moreover no exit is pending, the window offers a registered buffer that it has, and the driver takes it; what queue and driver hold then; without a delivery nothing happens, and only the s5p6818 goes on |
| `StreamClients.GoesOn` | camera/PreviewThread.cpp:228-303 | With every buffer registered and everyone playing along, each condition of a pass is met |
| `StreamClients.CanGoOn` | camera/PreviewThread.cpp:228-303 | Everyone can play along for any number of passes |
| `StreamClients.ShownInLine` | camera/PreviewThread.cpp:253-280 | What is shown is the line of buffers without its first few |
| `StreamClients.PreviewThread.Passes` | camera/PreviewThread.cpp:228-303 | Any number of passes: in step, and published are exactly the frames taken but the first skipped ones; when everyone plays along all passes are taken and the worker is alive |
| `StreamClients.PreviewThread.Run` | camera/PreviewThread.cpp:228-303 | The same from readyToRun on; and when everyone plays along the worker is alive after every number of passes, and published is the line of the stream's own buffers and the window's offers, in order, without its first few |
| `StreamClients.RecordThread.ReadyToRun` | camera/RecordThread.cpp:64-140 | Ready exactly if the preview runs, formats are set and the driver takes every request; then starts in step |
| `StreamClients.RecordThread.ThreadLoop` | camera/RecordThread.cpp:142-213 | The same from the answers, with the state read right after the driver delivers and nowhere else: a pending exit leaves the frame in the queue, and a pass without delivery ends the worker |
| `StreamClients.RecordThread.Passes` | camera/RecordThread.cpp:142-213 | Any number of passes, as for the preview |
| `StreamClients.RecordThread.Run` | camera/RecordThread.cpp:142-213 | The same run result for recording |
| `StreamClients.Session` | camera/NXStream.cpp:101-115 | After a session and its flush every buffer is back but those handed out unregistered |
| `AudioRoute.OverlayAt` | audio/audio_route.c:297-311 | Applying a path gives the controls it names its values and leaves the others |
| `AudioRoute.OverlayAnyOrder` | audio/audio_route.c:297-311 | A path that names no control twice may be applied in any order |
| `AudioRoute.OverlayTwice` | audio/audio_route.c:297-311 | Applying a path twice is applying it once |
| `AudioRoute.ResetUndoesApply` | audio/audio_route.c:313-329 | Resetting a path takes exactly its own effect back, whatever disjoint path was applied since |
| `AudioRoute.Position` | audio/audio_route.c:174-184 | The first setting of a control, or -1 |
| `AudioRoute.JoinedExact` | audio/audio_route.c:285-295 | Adding a sub-path never makes a control appear twice; it stops at the first that would |
| `AudioRoute.MixerPath.AddSetting` | audio/audio_route.c:214-239 | Added if and only if the control is not there yet |
| `AudioRoute.MixerPath.AddValue` | audio/audio_route.c:241-283 | One value or all values of a control; what a new setting leaves unset; no control twice |
| `AudioRoute.MixerPath.AddPath` | audio/audio_route.c:285-295 | Partial on conflict, as JoinedExact says |
| `AudioRoute.ChangedExact` | audio/audio_route.c:528-535 | What is written are exactly the controls whose values differ, in order |
| `AudioRoute.AudioRoute.UpdateMixer` | audio/audio_route.c:510-547 | Writes exactly the changed controls, in order; then the mixer holds the new values and the shadow is true |
| `AudioRoute.AudioRoute.SaveMixerState` | audio/audio_route.c:550-558 | The saved values are the new ones |
| `AudioRoute.AudioRoute.Reset` | audio/audio_route.c:561-570 | The new values are the saved ones |
| `AudioRoute.AudioRoute.PathApply` | audio/audio_route.c:297-311 | The loop lays the path over the new values |
| `AudioRoute.AudioRoute.PathReset` | audio/audio_route.c:313-329 | The loop puts the saved values back where the path points |
| `AudioRoute.AudioRoute.ApplyPath` | audio/audio_route.c:573-591 | By name; an unknown name changes nothing |
| `AudioRoute.FindFirst` | audio/audio_route.c:126-136 | The first path of a name is the one that is found |
| `AudioRoute.AudioRoute.constructor` | audio/audio_route.c:717-720 | At the end of the initialisation mixer and saved state are both the configured values |
| `AudioSelect.OutputNames` | audio/audio_hw.c:395-486 | The name of the output path of every request, spelled out: a speaker with anything wired has one of its own, a single known device that of its scenario, and nothing else has any |
| `AudioSelect.InputNames` | audio/audio_hw.c:395-486 | The name of the input path of every request, spelled out: only four sources have any, and where the microphone is |
| `AudioSelect.RouteIdInjective` | audio/audio_hw.c:507-507 | Two requests have the same route id if and only if they have the same source and device ids |
| `AudioSelect.SameIdSamePaths` | audio/audio_hw.c:507-535 | Same id, same output path; and the same input path if and only if nothing hangs on the input device, which the id leaves out |
| `AudioSelect.HeadHasSameId` | audio/audio_hw.c:508-510 | The request that was applied last has the id of the current one |
| `AudioSelect.AudioDevice.ChooseRoutes` | audio/audio_hw.c:512-535 | The two path names of a request |
| `AudioSelect.AudioDevice.SelectDevices` | audio/audio_hw.c:497-548 | A skipped call writes nothing; any other leaves the mixer at the saved state under the paths of the request |
| `AudioSelect.RoutedAt` | audio/audio_hw.c:542-547 | Control by control: the input's path goes first, then the output's, and what neither names is as it was saved |
| `AudioSelect.HistoryIndependent` | audio/audio_hw.c:497-548 | After any history the mixer is the saved state under the current request's paths, read with the input device of the request applied last |
| `AudioSelect.StaleMicrophone` | audio/audio_hw.c:507-529 | Concrete failure: the headset microphone stays in use after it was unplugged |
| `AudioOutput.Hal.OutputDevices` | audio/audio_hw.c:871-889 | The devices of all active streams but one |
| `AudioOutput.Hal.PcmOutputStart` | audio/audio_hw.c:567-622 | A taken card changes nothing; a device that is not ready is closed and the stream goes on pointing at it; else the card is taken and the mixer told once |
| `AudioOutput.Hal.OutWrite` | audio/audio_hw.c:1067-1097 | Starts a stream in standby; fails exactly when the card is taken or does not open; what the stream points at afterwards; the mixer is told exactly of a start |
| `AudioOutput.Hal.GetPresentationPosition` | audio/audio_hw.c:1153-1184 | A position exactly if there is a handle, the driver answers, and its room is at least the whole buffer, since nothing counts what was written; a closed handle is asked only in standby, but it is asked |
| `AudioOutput.Hal.DoOutputStandby` | audio/audio_hw.c:891-923 | The card is free, its PCM closed, no device in use; the mixer is not told |
| `AudioOutput.Hal.KeepDevices` | audio/audio_hw.c:915-920 | The mixer is told of the remaining devices, and left alone if there are none |
| `AudioOutput.Hal.OutSetParameters` | audio/audio_hw.c:949-995 | Re-routing; standby first when the digital output comes or goes; the mixer is told exactly if an active stream moved |
| `AudioOutput.Hal.OpenOutputStream` | audio/audio_hw.c:1476-1575 | Into the slot for its flags, in standby; -EBUSY when that is taken |
| `AudioOutput.Hal.CloseOutputStream` | audio/audio_hw.c:1577-1604 | Standby, then out of its slot |
| `AudioOutput.Hal.InputSelect` | audio/audio_hw.c:654-658 | An input stream changes source and device and tells the mixer once |
| `AudioOutput.AfterChange` | audio/audio_hw.c:871-923 | With one active stream at most, count, devices and open PCMs are those of that stream |
| `AudioOutput.OneUser` | audio/audio_hw.c:586-602 | In every reachable state an active stream is the only one, holds the one reference, and its devices are the ones in use |
| `AudioOutput.MixerFollows` | audio/audio_hw.c:497-622 | In every reachable state with a known output in use the mixer is exactly the saved state under the paths of the current devices and source |
| `Capture.LeftAt` | audio/audio_hw.c:734-738 | The left channel of interleaved samples |
| `Capture.StreamIn.DirectExact` | audio/audio_hw.c:1400-1401 | Without a resampler the samples come as captured (InRead): for every capture they are the frames the client wants if and only if it wants both channels, or one frame at most |
| `Capture.FirstMonoRead` | audio/audio_hw.c:1372-1428 | The first read of a single-channel stream without a resampler: behind the ramp frame k is sample k of the sound |
| `Capture.MonoRun` | audio/audio_hw.c:1372-1428 | Concrete run of the same, with any sound, beside the left channel, whose frame k is sample 2k |
| `Capture.StreamIn.MutedExact` | audio/audio_hw.c:1415-1416 | A muted client hears nothing, whatever is in its buffer, if and only if its read was answered (InRead says when, from the answers of the card) or ends before the first step of the ramp |
| `Capture.StreamIn.HeardExact` | audio/audio_hw.c:1408-1416 | What the client hears, sample by sample: silence after a mute that counts, else the ramp on every whole frame, and half a frame at the end as it was |
| `Capture.StaleExact` | audio/audio_hw.c:794-795 | With a card that refuses nothing a resampled read is answered if and only if the read before it was, or the resampler's first call asks for something: an old status is never cleared |
| `Capture.NoDevice` | audio/audio_hw.c:711-716 | Without a device a call that asks for anything is refused |
| `Capture.StreamIn.Start` | audio/audio_hw.c:625-668 | Standby ends exactly if the card is free and does not report an error; then nothing waits, the resampler is reset and the ramp starts |
| `Capture.StreamIn.Standby` | audio/audio_hw.c:1235-1255 | No device, in standby |
| `Capture.StreamIn.DropRight` | audio/audio_hw.c:734-738 | The in-place loop leaves exactly the left channel |
| `Capture.StreamIn.Fill` | audio/audio_hw.c:723-739 | A refused read leaves nothing waiting; else one period waits |
| `Capture.StreamIn.NextBuffer` | audio/audio_hw.c:698-745 | As many of the requested frames as wait, and where |
| `Capture.StreamIn.ReleaseBuffer` | audio/audio_hw.c:747-757 | The first frames that wait are used up, the others stay |
| `Capture.StreamIn.Feed` | audio/audio_hw.c:698-757 | One request of any size, of which any part is used: what the resampler was fed and what still waits is exactly what was captured |
| `Capture.StreamIn.Resample` | audio/audio_hw.c:771-774 | Any list of requests, also after one that failed: still nothing lost, repeated or reordered, and the status is that of the last read of the card |
| `Capture.StreamIn.ReadFrames` | audio/audio_hw.c:761-801 | The same for a whole call; when it is served, from the requests and the answers; which frames of the caller's buffer are written; and -ENODEV, nothing written, without a resampler and a device |
| `Capture.StreamIn.InRead` | audio/audio_hw.c:1372-1428 | The whole call: dispatch, start, ramp and mute. The count returned is always the whole buffer. A failed start leaves the buffer as it was; after any other start the ramp runs over all of it, also after an error, so what was not written comes out as old content scaled by the ramp |
| `CaptureRamp.Scaled` | audio/audio_hw.c:1356-1356 | The fixed-point product never amplifies and never changes sign |
| `CaptureRamp.ScaledGrows` | audio/audio_hw.c:1355-1357 | A louder step never makes a sample smaller |
| `CaptureRamp.StepsFit` | audio/audio_hw.c:661-663 | The ramp's steps add up to at most 65535 |
| `CaptureRamp.NextStep` | audio/audio_hw.c:1357-1357 | so the 16-bit volume never wraps |
| `CaptureRamp.Ramp.Start` | audio/audio_hw.c:660-663 | A fresh ramp of 100 ms from silence, its step rounded down |
| `CaptureRamp.StartedExact` | audio/audio_hw.c:661-662 | The ramp lasts a tenth of a second, and its step is the largest that keeps the volume in 16 bits so long |
| `CaptureRamp.Ramp.Apply` | audio/audio_hw.c:1345-1370 | The in-place loops scale frame k of the capture by k steps until the ramp ends, and nothing else |
| `CaptureRamp.OutputAt` | audio/audio_hw.c:1353-1365 | Sample by sample: in frame k of the ramp k steps of its 65536 parts, rounded down; after it as it was; a frame is one sample or two |
| `CaptureRamp.OutputInPieces` | audio/audio_hw.c:1351-1369 | The same samples however the reads are cut |
| `CaptureRamp.OutputKept` | audio/audio_hw.c:1408-1409 | A piece comes out as it was, whatever it holds, if and only if the ramp is over or the piece is empty |
| `CaptureRamp.OutputSilent` | audio/audio_hw.c:1351-1369 | and silent, whatever it holds, if and only if all of it is before the first step |
| `CaptureRamp.OutputAfterRamp` | audio/audio_hw.c:1351-1351 | Past the ramp nothing is changed |
| `Mjpeg.Encode` | lib_jpeg/libnxjpeg.c:363-407 | The walk terminates; dst holds the repaired frame and d->len its size, or the length stays as it was |
| `Mjpeg.ScanWritten` | lib_jpeg/libnxjpeg.c:378-393 | On a frame made of segments the walk ends at the first DHT, else exactly at SOS |
| `Mjpeg.WalkEnds` | lib_jpeg/libnxjpeg.c:378-393 | Whatever the segment lengths are, the places of the markers decide where the walk ends |
| `Mjpeg.HasWalk` | lib_jpeg/libnxjpeg.c:378-393 | Such places exist if and only if the walk never leaves the frame |
| `Mjpeg.WalkDecides` | lib_jpeg/libnxjpeg.c:363-407 | What comes out of any frame, from its first two bytes and the end of its walk: nothing, itself, or itself with the tables put in there |
| `Mjpeg.RepairsFrame` | lib_jpeg/libnxjpeg.c:363-407 | A well-formed frame comes out unchanged if a DHT precedes SOS, else with the tables as its last segment |
| `Mjpeg.Idempotent` | lib_jpeg/libnxjpeg.c:363-407 | Any frame that is taken comes out unchanged the second time |
| `Mjpeg.TakenExact` | lib_jpeg/libnxjpeg.c:368-395 | A frame is taken if and only if one of its first two bytes is right and the walk does not end at a byte that is no marker |
| `Mjpeg.BreakRefused` | lib_jpeg/libnxjpeg.c:379-383 | Well-formed segments without tables followed by a byte that is no marker are refused, whatever the start |
| `Mjpeg.StartExact` | lib_jpeg/libnxjpeg.c:368-371 | The start of an otherwise well-formed frame is refused exactly if both of its bytes are wrong, so it is judged as SOI requires if and only if both are right or both are wrong |
| `Mjpeg.WrongStart` | lib_jpeg/libnxjpeg.c:368-371 | Concrete failure: a frame without SOI that is taken |
| `Nmea.NmeaReader.AddC` | gps/gps.c:684-705 | The buffer, the position and the overflow flag follow the reader as a value; no write leaves the buffer |
| `Nmea.NmeaReader.Feed` | gps/gps.c:903-917 | What is parsed depends on the bytes alone, not on how they were cut |
| `Nmea.LineEnd` | gps/gps.c:701-704 | The first newline |
| `Nmea.WholeLine` | gps/gps.c:684-705 | What one line does to a reader in step: parsed, lost with the next one, or skipped |
| `Nmea.ParsesKept` | gps/gps.c:684-705 | Every byte stream parses to exactly the kept lines, in order |
| `Nmea.SentencesExact` | gps/gps.c:692-704 | These are all lines of up to 82 bytes if and only if no line of exactly 83 met in step is followed by one of them |
| `Nmea.NoLongLines` | gps/gps.c:692-696 | In particular when no line has exactly 83 bytes |
| `DisplayRing.BackIsModulo` | hwc/hdmi.cpp:268-269 | The slots before the index, in the code's modulo |
| `DisplayRing.NextIsFree` | hwc/hdmi.cpp:262-262 | No slot is with the driver twice, and the next one is free |
| `DisplayRing.Turned` | hwc/hdmi.cpp:268-279 | One slot out and the oldest back keeps the accounting |
| `DisplayRing.StartExact` | hwc/hdmi.cpp:215-242 | A start succeeds if and only if the driver has no slot of the plane, takes one and starts; it strands the slot exactly when only the last fails |
| `DisplayRing.PlayExact` | hwc/hdmi.cpp:254-281 | The next slot goes out and with a full ring the oldest comes back, if and only if the plane is not jammed and the driver is willing; the plane jams exactly when the driver took the last slot and gave none back |
| `DisplayRing.HandledExact` | hwc/hdmi.cpp:141-213 | Every message keeps the accounting of both planes; one that is handled to its end leaves a plane playing exactly if it had a handle, one slot further |
| `DisplayRing.HandledWhen` | hwc/hdmi.cpp:141-213 | A message is handled to its end if and only if each plane without a handle is off or stops, each that is to start has an empty driver that takes and starts, and each that plays is not jammed, its driver takes, and there is room or it gives back; and what becomes of each plane, which is left alone exactly if a step before its own failed |
| `DisplayRing.StepsExact` | hwc/hdmi.cpp:141-213 | The same for the three steps of one plane |
| `DisplayRing.RunsValid` | hwc/hdmi.cpp:102-139 | So does every run of messages |
| `DisplayRing.JamExact` | hwc/hdmi.cpp:102-163 | A jam lasts through a run of messages if and only if none of them lacks a handle for the plane, has one for the other plane, and succeeds in stopping the stream |
| `DisplayRing.PlaysAgain` | hwc/hdmi.cpp:148-185 | After such a message the next handled one with a handle makes the plane play from slot 1 |
| `DisplayRing.StrandedForever` | hwc/hdmi.cpp:164-185 | A plane whose start failed late is never started by any later message |
| `DisplayRing.Plane.HandleStart` | hwc/hdmi.cpp:215-242 | The code of a start is the function Started |
| `DisplayRing.Plane.HandlePlay` | hwc/hdmi.cpp:254-281 | The code of a play is the function Played |
| `DisplayRing.HdmiThread.HandlePlay` | hwc/hdmi.cpp:141-213 | handlePlay over both planes is the function Handled |
| `DisplayRing.HdmiThread.ProcessMessage` | hwc/hdmi.cpp:102-139 | A message with a handle is played whatever its kind, one without is dropped; only an exit without handles ends the thread |
| `DisplayRing.ComposerPlane.SetBuffer` | hwc/hwc.cpp:760-797 | The composer's version, which commits only on success: when it succeeds, and what the driver holds then or after a failure |
| `Zoom.ScalerZoomController.SetCrop` | camera/ScalerZoomController.cpp:111-161 | The rectangle from the crop: each edge and size as Placed and Sized say, the left edge at the next multiple of 32, the size cut at the frame; for a crop inside the base it is inside the frame if and only if its scaled left edge is not past the last multiple of 32 of the frame, so always for widths that are one |
| `Zoom.PlacedInside` | camera/ScalerZoomController.cpp:127-140 | For a crop inside the base picture: edge and size are scaled down and rounded down, but a crop of the full size starts at 0 and is the whole frame |
| `Zoom.PlacedOnce` | camera/ScalerZoomController.cpp:127-140 | and there is only one such place, for crops outside the base as well, where C rounds towards zero |
| `Zoom.AllocateBuffer` | nxutil/NXAllocator.cpp:50-135 | Sizes, strides and pages of the planes for every format; it succeeds exactly if the format is known and every piece of memory is had |
| `Zoom.AddressExact` | nxutil/NXScaler.cpp:28-53 | An address is kept by the alignment if and only if it is on the 16-byte grid |
| `Zoom.AddressesExact` | nxutil/NXScaler.cpp:129-139 | With the left edge on a multiple of 32 all three planes are read from exactly the crop's corner |
| `Zoom.PackedAddress` | nxutil/NXScaler.cpp:28-53 | A packed picture is read from the corner, two bytes a sample, up to the next multiple of 16 |
| `Zoom.Inside420` | nxutil/NXAllocator.cpp:61-65 | 4:2:0 planes hold every rectangle of the frame |
| `Zoom.StridesAgree` | nxutil/NXAllocator.cpp:66-70 | The two strides used for 4:2:2 agree if and only if the width is not up to 64 past a multiple of 128 |
| `Zoom.Inside422` | nxutil/NXAllocator.cpp:66-70 | For every even height: 4:2:2 planes hold the whole frame if and only if the strides agree or the rounding of the height leaves room enough |
| `Zoom.OnGrid422` | nxutil/NXAllocator.cpp:66-70 | For heights that are multiples of 16 there is no such room |
| `Zoom.Crops422` | nxutil/NXAllocator.cpp:66-70 | Planes that hold the frame hold every rectangle of it |
| `Zoom.Overlap444` | nxutil/NXAllocator.cpp:71-127 | Two samples of a 4:4:4 chroma plane share their address if and only if the width is beyond 64 |

## Left out

- System calls (ioctl, ION, mmap, V4L2, ALSA, SPI): replaced by the device classes; a busy flash is taken to finish.
- Floating point (APEX values, degrees and minutes, NMEA coordinates, DPI): the attribute record is taken as given.
- Time: polls are bounded counters; sleeping and priorities are not modelled.
- 32-bit overflow of `left * Width` in `setCrop`, and sizes above 4 GB.
- ExifProcessor.Processor.ProcessExif: takes strings that are terminated, as the C code does; `allocOutBuffer` itself is not modelled, since the result does not depend on what the buffer held.
- FlashUpdate.UpdateFromMem: the read-back at the end of the first-stage update is compared with nothing in the source and is not modelled; the image must fit the flash.
- FlashUpdate.UpdateUboot: the buffer with header and image is a value; `update_eeprom`, which differs in reading a file, is not modelled.
- Flash.EepromWrite: the source data are a value; sizes of zero or less, which the loop would send once, are excluded.
- StreamThread.NXStreamThread.Stop: one controller, and a worker that never calls stop itself (`CaptureThread` does, and then returns); the flush is one event, during which the controller does nothing else.
- StreamClients.PreviewThread.ThreadLoop: the path without zoom; the zoom path, which queues its own buffers, is left out.
- AudioRoute.MixerPath.AddValue: an index below -1, which writes before the array, is excluded.
- AudioRoute.AudioRoute.UpdateMixer: every control is written whole; enum controls are taken as single-valued, unsupported control types and XML parsing are left out.
- AudioSelect.HistoryIndependent: where the id leaves the input device out, it is stated for the device of the request applied last; SameIdSamePaths says exactly when that makes a difference.
- AudioOutput.Hal.OutWrite: the HDMI slot, `disabled` and the SPDIF card belong to another build; writing the samples and the sleep after an error are left out.
- Capture.StreamIn.Resample: the resampling library is any client of the provider that writes some frames; what it makes of what it was fed is not modelled.
- Capture.StreamIn.InRead: two captured channels, a request rate of at least 10 (below it the start divides by zero); what a refused read of the card leaves in the client's buffer is left open.
- Mjpeg.Encode: the 416 bytes of Huffman tables behind their marker and length are a parameter; frames that run past their own end, where the C code reads out of bounds, are excluded.
- Nmea.NmeaReader.Feed: what a sentence means to the tokenizer, and the loop on a closed descriptor, are left out.
- DisplayRing.PlayExact: rings of one slot, for which the start leaves the index out of range, are excluded.
- DisplayRing.JamExact: the HDMI thread's messages only; streams that the composer switches off behind it (hwc/hwc.cpp:1202, 1263) are not modelled. The thread itself is a build option (hwc/hwc.cpp:69).
- Zoom.AllocateBuffer: what was allocated before a failure stays allocated; buffers come in whole pages.
- Zoom.AddressesExact: the planar codes; packed 4:2:2 is in PackedAddress, and codes the scaler does not know are in the address function only.
- The input-stream counter, sound-card parameter probing, `HWCreator`, sensor drivers, metadata tables, lights, keystore, CEC, colour conversion, gralloc, satellite tables: wrappers, tables, or easy members.
