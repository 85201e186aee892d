# Video-to-SEO photos, modelled in Dafny

The tool takes a job-site video and samples ten frame positions from it.
Each sampled frame that reads becomes a JPEG photo whose Exif record carries
a capture time and a GPS position. The photo of position i is stamped 5·i
minutes after the chosen start date-time, whether or not earlier frames
read; a frame that does not read is skipped. The keyword text gives
the photos their names. The photos are collected in a session gallery, where
any one of them can be discarded. All of this lives in `app.py`.

The model covers:

- `Coordinates`: `to_deg`, which turns a decimal coordinate into the three
  Exif RATIONALs (degrees/1, minutes/1, seconds·10000/10000) and a
  hemisphere letter. Beside it, the decoding a reader applies.
- `Calendar`: Python's `datetime` as `app.py` uses it. Dates run from year 1
  to 9999 with a time of day to the second. Adding whole minutes fails past
  9999-12-31 23:59:59, which is where Python raises OverflowError.
- `TimestampFormat`: `strftime("%Y:%m:%d %H:%M:%S")` and its inverse parser.
- `Exif`: the metadata record `set_image_metadata` builds. It is written
  twice: once as a function, and once as a method that fills the record in
  place the way the source does. Beside it, a reader that recovers the time
  and position from the record.
- `Frames`: the `np.linspace(0, total_frames - 1, 10, dtype=int)` sample
  positions, and the five-minute drift between stamps.
- `FileNames`: the name `{keywords}-{NN}-{before|action-i|after}.jpg`.
- `Gallery`: the session's list of generated photos. `Session.Generate`
  models the generation loop and `Session.RemoveImage` models
  `remove_image`. The loop is specified by a recursive function (`RunUpTo`)
  over which frames read and which stamps exist, and the lemmas about that
  function give the gallery's properties.

Reals stand in for Python floats, so the arithmetic is exact. Python's
`int()` of a non-negative float truncates, which here is `.Floor`. The video
decoder is represented by the set of frame positions that `cap.read()`
succeeds on. The wall clock behind the widget key is an integer parameter.

## Model

| member | source | states |
|---|---|---|
| Coordinates.Abs | app.py:36 | the result is non-negative and equals the value or its negation |
| Coordinates.ToDeg | app.py:33-41 | the letter is the second of the pair exactly for negative values; degrees/1 is the whole part of the absolute value; minutes/1 lies in 0..59; seconds have denominator 10000 and numerator in 0..599999 |
| Coordinates.ToDegPrecision | app.py:36-41 | the degrees/minutes/seconds triple never exceeds the absolute value and falls short of it by less than 1/10000 of an arc second |
| Coordinates.RoundTrip | app.py:33-41 | decoding the encoding with two distinct letters recovers the value toward zero, within 1/36000000 degree, for both signs |
| Coordinates.ZeroIsPositiveHemisphere | app.py:34-35 | zero is encoded as 0/1, 0/1, 0/10000 with letter "N" (and "E" for longitude), because the test is a strict `< 0` |
| Coordinates.ToDecimal | app.py:41 | the decoding partner of the tuple: present exactly when the denominators are non-zero and the letter is one of the pair; the magnitude for the first letter, its negation for the second |
| Calendar.DaysInMonth | app.py:155 | month lengths are 28..31, with 29 exactly for February of a Gregorian leap year |
| Calendar.NextDay | app.py:155 | there is no next day exactly after 9999-12-31; otherwise the next day is a valid date |
| Calendar.NextDayOrdinal | app.py:155 | the next day's ordinal is one more |
| Calendar.OrdinalRange | app.py:155 | ordinals of valid dates lie between 1 and that of 9999-12-31, reaching it only on that date |
| Calendar.AddDays | app.py:155 | stepping forward whole days yields only valid dates |
| Calendar.AddDaysOrdinal | app.py:155 | adding k days succeeds exactly when the ordinal plus k stays within 9999-12-31, and then moves the ordinal by exactly k |
| Calendar.AddMinutes | app.py:155 | adding minutes yields only valid date-times |
| Calendar.AddMinutesSeconds | app.py:155 | `t + timedelta(minutes=m)` exists exactly when it is not past the last representable second, and then lies exactly 60·m seconds after t |
| TimestampFormat.Pad2 | app.py:46 | `%m`, `%d`, `%H`, `%M`, `%S`: exactly two digits; `Read2Pad2` and `Pad2Read2` make it a bijection between 0..99 and two-digit strings |
| TimestampFormat.Pad4 | app.py:46 | `%Y`: exactly four digits; `Read4Pad4` and `Pad4Read4` make it a bijection between 0..9999 and four-digit strings |
| TimestampFormat.Format | app.py:46 | the string is 19 characters: digits, with ':' ':' ' ' ':' ':' at positions 4, 7, 10, 13, 16 |
| TimestampFormat.Parse | app.py:46 | the inverse partner: it accepts only well-shaped strings and yields only valid date-times |
| TimestampFormat.ParseFormat | app.py:46 | parsing the formatted string gives back the same date-time |
| TimestampFormat.FormatParse | app.py:46 | every string the parser accepts is exactly the formatting of its result |
| TimestampFormat.FormatInjective | app.py:46 | distinct date-times are formatted differently |
| Exif.ExifFor | app.py:44-56 | the record handed to the serialiser: only DateTime in 0th, only DateTimeOriginal and DateTimeDigitized in Exif, only the four GPS tags in GPS, an empty 1st IFD and no thumbnail; `TimestampTags`, `GpsTags` and `ReadBack` state its contents |
| Exif.BuildExifDict | app.py:43-56 | filling empty IFDs in place yields the record `ExifFor` describes |
| Exif.TimestampTags | app.py:45-49 | DateTime, DateTimeOriginal and DateTimeDigitized are set together or not at all, to the same well-shaped string, and no other 0th or Exif tag is set |
| Exif.GpsTags | app.py:50-56 | the GPS IFD holds exactly the four tags when both coordinates are given and is empty otherwise; the letters follow the signs; each angle is exactly `to_deg`'s degrees/1, minutes/1, seconds/10000 triple |
| Exif.ReadMetadata | app.py:43-56 | the reference reader of the record, defined only to state the round trip: a recovered time needs DateTimeOriginal and is valid; a recovered position needs all four GPS tags |
| Exif.ReadCoordinateOfEncoding | app.py:51-56 | a reference tag and a triple tag written from `to_deg` read back as a coordinate approximating the value |
| Exif.ReadBackTime | app.py:45-49 | reading DateTimeOriginal back gives exactly the date-time written, or nothing when none was |
| Exif.ReadBackPosition | app.py:50-56 | a position is read back exactly when both coordinates were written, each approximated toward zero |
| Exif.ReadBack | app.py:43-56 | the whole record reads back as the time written and the position written |
| Frames.FrameIndices | app.py:142 | there are always ten sample positions |
| Frames.FrameIndicesSpacing | app.py:142 | position i < 9 is i/9 of the way to the last frame, rounded down, and position 9 is the last frame |
| Frames.FrameIndicesInRange | app.py:140-142 | for a video with frames the positions start at 0, end at the last frame, stay inside the video and never decrease; with ten or more frames they strictly increase |
| Frames.FrameTime | app.py:155 | a stamp, when it exists, is a valid date-time |
| Frames.FrameTimeOffset | app.py:143-155 | photo i's stamp exists exactly when base + 5·i minutes is representable, and is exactly 300·i seconds after the base |
| Frames.FrameTimesIncrease | app.py:145-155 | later photos are stamped strictly later, 300 seconds per position apart, and once a stamp overflows every later one does |
| FileNames.LowerChar | app.py:162 | 'A'..'Z' map to 'a'..'z' at the same offset; every other character is unchanged; the result is never an upper-case ASCII letter |
| FileNames.Slug | app.py:162 | same length as the keywords; each character is the hyphenated, lower-cased input character; no spaces or capitals remain |
| FileNames.SlugIdempotent | app.py:162 | normalising the keywords a second time changes nothing |
| FileNames.DecimalValue | app.py:161 | the reading partner of `str(n)`: the number a digit string spells, most significant digit first |
| FileNames.Decimal | app.py:161 | `str(n)` is all digits that spell n, with no leading zero, and is one digit exactly below ten |
| FileNames.DecimalSingle | app.py:161 | below ten, `str(n)` is the single digit |
| FileNames.TwoDigits | app.py:162 | `{n:02d}` is at least two digits; below 100 it is exactly two digits that spell n |
| FileNames.TwoDigitsInjective | app.py:162 | for 1..10 it is exactly two characters, different for different numbers |
| FileNames.Suffix | app.py:159-161 | the suffix chosen by position; `SuffixCases` states its three cases in both directions |
| FileNames.SuffixCases | app.py:159-161 | "before" exactly for position 0, "after" exactly for position 9, "action-i" otherwise |
| FileNames.FileName | app.py:162 | the name starts with the normalised keywords and a hyphen, and for the ten positions continues after the two index digits with a hyphen, the position's suffix and ".jpg" |
| FileNames.IndexInName | app.py:162 | the two-digit number sits right after the keywords and their hyphen |
| FileNames.FileNamesDistinct | app.py:159-162 | the ten photos of one video never share a name, whatever the keywords |
| Gallery.RunUpTo | app.py:145-170 | the loop after its first k positions makes at most k photos; the lemmas below state which |
| Gallery.RunUpToWellPlanned | app.py:145-170 | every photo the loop makes is of a readable position with that position's stamp; photos come in position order and below the positions already visited |
| Gallery.PositionsAppend | app.py:165 | appending a photo adds exactly its position to the set of positions |
| Gallery.RunUpToComplete | app.py:145-148 | without overflow, the positions photographed are exactly the readable ones visited |
| Gallery.RunUpToOverflow | app.py:148-155 | the loop ends in OverflowError exactly when some readable position has no stamp |
| Gallery.OverflowFinal | app.py:155 | after OverflowError nothing more is appended |
| Gallery.OverflowPrefix | app.py:145-155 | an overflowing loop stops at the first readable position without a stamp, and has photographed exactly the readable positions before it |
| Gallery.ShotsOrderedLength | app.py:145 | photos with strictly increasing positions below n number at most n |
| Gallery.PositionAtLeast | app.py:145 | the p-th photo in position order is of position p or later |
| Gallery.Readability | app.py:146-148 | one readability flag per sampled position |
| Gallery.Stamps | app.py:155 | one stamp per sampled position, each valid where it exists |
| Gallery.GenerationRun | app.py:129-145 | a press of "Generate" clears the list, runs the loop only when the video has frames, and makes at most ten photos |
| Gallery.Photo | app.py:159-170 | the entry appended for one photo; `PhotoContents` states its name, key, frame and read-back |
| Gallery.Photos | app.py:165-170 | the entries appended for a list of shots, in order; `PhotosAppend`, `PhotosFaithful` and `PhotosDistinct` state their properties |
| Gallery.StampsOverflow | app.py:143-155 | a position has no stamp exactly when base + 300·i seconds is past the last representable second |
| Gallery.PhotoContents | app.py:154-170 | the photo of a well-planned position shows a frame that read, carries that position's key, name and stamp, and reads back as base + 300·position seconds at the chosen coordinates |
| Gallery.GenerationShots | app.py:140-170 | a press of "Generate" makes at most ten well-planned photos in position order; OverflowError happens exactly when the video has frames and a readable position's stamp is past the last second; otherwise every readable position is photographed |
| Gallery.GenerationOverflow | app.py:143-155 | when OverflowError ends a press of "Generate", it is raised at the first readable position whose stamp is past the last second, and the photos appended are exactly those of the readable positions before it |
| Gallery.GenerationStep | app.py:145-170 | one loop turn: an unreadable frame changes nothing; a readable one either ends the loop with OverflowError for good or appends its photo |
| Gallery.PhotosAppend | app.py:165-170 | appending a shot appends exactly its photo to the gallery |
| Gallery.PhotosFaithful | app.py:154-170 | every photo made reads back as its stamp and the chosen coordinates, and shows a frame that read |
| Gallery.PhotosDistinct | app.py:159-170 | the photos made are in video order and never share a name |
| Gallery.GenerationGallery | app.py:129-170 | the gallery after a press of "Generate": at most ten photos, in video order, with distinct names, each faithful to the job |
| Gallery.RemoveAt | app.py:63-66 | an index in range removes exactly that entry and shifts the later ones down by one; any other index leaves the list unchanged |
| Gallery.RemoveAtMultiset | app.py:65-66 | removal takes exactly one copy of the indexed entry and nothing else |
| Gallery.RemoveAtKeepsOrder | app.py:63-66 | discarding a photo keeps the rest in video order |
| Gallery.Session.constructor | app.py:72-73 | a new session starts with an empty gallery |
| Gallery.Session.RemoveImage | app.py:63-66 | the gallery becomes the old one with the indexed entry removed, or stays as it was for an index out of range |
| Gallery.Session.Generate | app.py:129-170 | the gallery becomes exactly the photos `GenerationRun` describes, and the result flags OverflowError exactly as that run does |

## Left out

- The password gate (`check_password`, app.py:13-30) and all Streamlit layout, widgets, download buttons and `st.rerun`: user interface, not logic.
- Video decoding with cv2 (app.py:133-138, 146-152): frame pixels, colour conversion and JPEG re-encoding. The frame count is a parameter, and the decoder's success is the set of frame positions `cap.read()` succeeds on.
- `piexif.dump` and `Image.save` (app.py:57-61): the model stops at the record handed to the serialiser, and `GeneratedImage` holds that record instead of the JPEG bytes and the preview image.
- ZIP packaging of the gallery: byte-level archive output.
- Coordinates.ToDeg: uses exact reals, not IEEE doubles, so float rounding in `(abs_value - deg) * 60` is not modelled. `round(x, 10000)` keeps every digit a double has, so it is the identity here.
- Calendar.AddMinutes: microseconds are left out. Whole-minute steps never change them, and the formatted string drops them.
- TimestampFormat.Format: `%Y` is always four zero-padded digits. For years below 1000 some platforms' `strftime` print fewer digits.
- Frames.FrameIndices: numpy's integer cast is floor; this equals truncation whenever the video has frames, which is the only case the loop runs.
- FileNames.LowerChar: only ASCII letters are lower-cased. Python's `str.lower()` also maps non-ASCII letters, which this model does not capture.
- Gallery.Session.Generate: the widget key is built from one clock reading per press. The source reads `datetime.now()` once per photo, and the key's string form is not modelled. Deleting the temporary video file is also left out.
- Gallery.Session.Generate: an OverflowError is returned as a flag, and the photos appended before it stay. In the source the exception propagates to Streamlit.
- Batch caches, random timestamps, provenance grouping and reading the metadata of existing photos are not in app.py and are not modelled. `Exif.ReadMetadata` is only a reference decoder for the record the app writes, used to state the round trip.
