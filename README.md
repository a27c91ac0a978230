# media-sitegen scan and classification, in Dafny

media-sitegen turns a directory of media files into a static HTML page. Before rendering, it lists
the directory: every entry becomes a `MediaFile` record holding its base file name, a mime type
guessed from that name, an empty comment, and a `MediaGroup` (`Audio`, `Video` or `Unknown`).
The group comes from `determine_media`, which looks for "audio" in the mime type first, then for
"video", and otherwise gives `Unknown`. The page then picks a viewer by that group.

This project models that scan and that classifier. It has three modules:

- `Substrings` (`substrings.dfy`) models the `contains` test as a recursive search, `Contains`. It
  proves that the search agrees with a reference definition: an occurrence at some position,
  `OccursAt`.
- `Media` (`media.dfy`) holds the `MediaGroup` datatype and `DetermineMedia`, with lemmas for the
  priority of "audio", the `Video` and `Unknown` cases, and the mime types of the example files.
- `Scanner` (`scanner.dfy`) models paths by their components, with `FileName` returning the last
  component when it is a normal name, and the `MediaFile` record. The loop of `gather_files` is
  the method `MediaList.GatherFiles`. It appends to the `files` field of a `MediaList`, which
  stands for the caller's vector. The method is proved against the specification function
  `Described`, and lemmas about `Described` give the per-record facts.

Directory entries arrive as a sequence of paths, in the order the directory yields them. The
mime-type guess is a parameter `guess: Path -> string`. An entry with no file name makes the
program panic. The model returns `NoFileName(i)` instead. The records of the entries before it
stay appended, since the source pushes into the caller's vector in place. `Scan` models the part
of `main` that creates the empty vector and fills it. When a panic stops the run, it returns
`Halted` and no list.

## Model

| member | source | states |
|---|---|---|
| `Substrings.OccursContains` | src/main.rs:103-105 | an occurrence of the pattern at any position makes `contains` true |
| `Substrings.ContainsOccurs` | src/main.rs:103-105 | when `contains` is true, the pattern occurs at some position |
| `Substrings.ContainsIffOccurs` | src/main.rs:103-105 | `contains` holds exactly when the pattern occurs at some position (both directions) |
| `Substrings.ContainsInfix` | src/main.rs:103-105 | a string holding the pattern verbatim, whatever surrounds it, makes `contains` true |
| `Substrings.NotContainsByFirst` | src/main.rs:103-105 | if no candidate start position holds the pattern's first character, `contains` is false |
| `Media.DetermineMediaSpec` | src/main.rs:102-110 | the result is Audio iff "audio" occurs; Video iff "audio" does not occur and "video" does; Unknown iff neither occurs. The three cases are exclusive and cover every string |
| `Media.AudioHasPriority` | src/main.rs:103-104 | a mime type that contains "audio" is Audio even when it also contains "video", in either order |
| `Media.VideoWithoutAudio` | src/main.rs:105-106 | a mime type that contains "video" and never "audio" is Video |
| `Media.UnknownMentionsNeither` | src/main.rs:107-108 | an Unknown mime type has no occurrence of "audio" or "video" at any position |
| `Media.ExampleAudio` | src/main.rs:102-104 | "audio/mpeg" is classified Audio |
| `Media.ExampleVideo` | src/main.rs:102-106 | "video/mp4" is classified Video |
| `Media.ExampleUnknown` | src/main.rs:102-110 | "text/plain" is classified Unknown |
| `Scanner.DescribedAt` | src/main.rs:84-97 | the scan makes one record per entry, in order. The k-th record's file name is the k-th entry's file name, its mime type is the guess for that entry, its comment is empty, and its group is `determine_media` of its own mime type |
| `Scanner.RecordAtIsDescribe` | src/main.rs:84-96 | the k-th record is exactly the record built from the k-th entry |
| `Scanner.RecordFromEntry` | src/main.rs:81-97 | every listed record was built from one of the directory's entries |
| `Scanner.SameEntriesSameRecords` | src/main.rs:81-97 | two orderings of the same entries give the same set of records: only the order of the listing depends on the order the directory yields its entries in |
| `Scanner.DescribedThree` | src/main.rs:81-97 | three named entries are listed as their three records, in order |
| `Scanner.MediaList.constructor` | src/main.rs:61 | the vector starts empty |
| `Scanner.MediaList.GatherFiles` | src/main.rs:79-98 | it completes iff every entry has a file name, and then the list is the old list plus one record per entry, in order. Otherwise it stops at the first unnamed entry, with the records of the entries before it appended and none for that entry. The existing prefix is unchanged, and every appended record has an empty comment and the group of its mime type |
| `Scanner.Scan` | src/main.rs:61-62 | scanning into a fresh list gives exactly one record per entry when all are named. Otherwise it halts at the first entry without a file name and produces no list |
| `Scanner.ExampleGallery` | src/main.rs:79-110 | a directory of song.mp3, clip.mp4 and notes.txt, guessed as audio/mpeg, video/mp4 and text/plain, is listed in that order as Audio, Video and Unknown |

## Left out

- Command-line parsing (src/main.rs:34-59) goes through a library. The `copy-media-files` flag is only declared, and no code copies files.
- Template rendering and printing the page or the render error (src/main.rs:64-74) are left out. They are a foreign template engine over an embedded template, plus output. The fixed page title is part of this and is not modelled.
- Opening the directory and reading each entry, with their `unwrap` panics (src/main.rs:81-82), are filesystem I/O. The entries are an input sequence instead, in the order the directory yields them.
- The mime lookup table of `guess_mime_type` (src/main.rs:88) is in a library. It is the parameter `guess`, a function of the path.
- The conversion of an OS file name to UTF-8 and its `unwrap` panic (src/main.rs:85) are platform string encoding. File names are already strings here.
- Splitting a textual path into components is the platform path library. A path is given as its component sequence, and `FileName` follows the library's rule: the last component when it is a normal name, otherwise none. Nothing in the model, as in the code, makes a normal name non-empty. A non-empty file name is a property of the path library, not of this program.
- Serialisation derives (src/main.rs:11, 19) are library machinery.
