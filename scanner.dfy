/**
 * The scan of the source directory: one media file record per directory entry, appended in the
 * order the directory yields its entries to a list the caller owns.
 */
module Scanner {
  import opened Media

  /** One component of a path, as the platform's path type splits it. */
  datatype Component = RootDir | CurDir | ParentDir | Normal(name: string)

  /** A directory entry's path, given by its components. */
  datatype Path = Path(components: seq<Component>)

  datatype Option<T> = None | Some(value: T)

  /** The file name of a path: its last component when that is a normal name, otherwise nothing. */
  function FileName(path: Path): Option<string>
  {
    if |path.components| > 0 && path.components[|path.components| - 1].Normal? then
      Some(path.components[|path.components| - 1].name)
    else
      None
  }

  /** The record the generated page is built from: one per file. */
  datatype MediaFile = MediaFile(filename: string, mimeType: string, comment: string, media: MediaGroup)

  /** A record as the scan makes it: no comment yet, and the group that belongs to its mime type. */
  predicate WellFormed(m: MediaFile)
  {
    m.comment == "" && m.media == DetermineMedia(m.mimeType)
  }

  /** True when every entry has a file name, so the scan passes all of them. */
  predicate AllNamed(entries: seq<Path>)
  {
    forall j :: 0 <= j < |entries| ==> FileName(entries[j]).Some?
  }

  /** The record the scan makes of one named entry, its mime type guessed by `guess`. */
  function Describe(path: Path, guess: Path -> string): MediaFile
    requires FileName(path).Some?
  {
    var mimeType := guess(path);
    MediaFile(FileName(path).value, mimeType, "", DetermineMedia(mimeType))
  }

  /** The records the scan makes of a run of named entries, in their order. */
  function Described(entries: seq<Path>, guess: Path -> string): seq<MediaFile>
    requires AllNamed(entries)
  {
    if entries == [] then
      []
    else
      Described(entries[..|entries| - 1], guess) + [Describe(entries[|entries| - 1], guess)]
  }

  /**
   * One record per entry, the k-th made from the k-th entry: its file name is that entry's file
   * name, its mime type the guess for that entry, its comment empty and its group the one its
   * mime type determines.
   */
  lemma {:induction false} DescribedAt(entries: seq<Path>, guess: Path -> string, k: int)
    requires AllNamed(entries)
    requires 0 <= k < |entries|
    ensures |Described(entries, guess)| == |entries|
    ensures FileName(entries[k]) == Some(Described(entries, guess)[k].filename)
    ensures Described(entries, guess)[k].mimeType == guess(entries[k])
    ensures WellFormed(Described(entries, guess)[k])
    decreases |entries|
  {
    var init := entries[..|entries| - 1];
    if k < |entries| - 1 {
      DescribedAt(init, guess, k);
    } else if |init| > 0 {
      DescribedAt(init, guess, 0);
    }
  }

  /**
   * The records are the same whatever order the entries come in: a record is among those of one
   * ordering exactly when it is among those of another ordering of the same entries.
   */
  lemma SameEntriesSameRecords(entries: seq<Path>, others: seq<Path>, guess: Path -> string, m: MediaFile)
    requires AllNamed(entries) && AllNamed(others)
    requires forall p :: p in entries <==> p in others
    ensures m in Described(entries, guess) <==> m in Described(others, guess)
  {
    if m in Described(entries, guess) {
      RecordFromEntry(entries, guess, m);
      var j :| 0 <= j < |entries| && Describe(entries[j], guess) == m;
      assert entries[j] in others;
      var k :| 0 <= k < |others| && others[k] == entries[j];
      DescribedAt(others, guess, k);
      RecordAtIsDescribe(others, guess, k);
    }
    if m in Described(others, guess) {
      RecordFromEntry(others, guess, m);
      var j :| 0 <= j < |others| && Describe(others[j], guess) == m;
      assert others[j] in entries;
      var k :| 0 <= k < |entries| && entries[k] == others[j];
      DescribedAt(entries, guess, k);
      RecordAtIsDescribe(entries, guess, k);
    }
  }

  /** The k-th record is the description of the k-th entry. */
  lemma RecordAtIsDescribe(entries: seq<Path>, guess: Path -> string, k: int)
    requires AllNamed(entries)
    requires 0 <= k < |entries|
    ensures |Described(entries, guess)| == |entries| && Described(entries, guess)[k] == Describe(entries[k], guess)
  {
    DescribedAt(entries, guess, k);
  }

  /** Every record the scan produces describes one of the entries. */
  lemma RecordFromEntry(entries: seq<Path>, guess: Path -> string, m: MediaFile)
    requires AllNamed(entries)
    requires m in Described(entries, guess)
    ensures exists j :: 0 <= j < |entries| && Describe(entries[j], guess) == m
  {
    var k :| 0 <= k < |Described(entries, guess)| && Described(entries, guess)[k] == m;
    DescribedAt(entries, guess, 0);
    RecordAtIsDescribe(entries, guess, k);
  }

  /** How a scan ends: it went through every entry, or it stopped at an entry with no file name. */
  datatype GatherOutcome = Completed | NoFileName(index: nat)

  /** The caller-owned list of media files that the scan appends to. */
  class MediaList {
    var files: seq<MediaFile>

    /** An empty list. */
    constructor ()
      ensures files == []
    {
      files := [];
    }

    /**
     * Append one record per entry, in order. An entry without a file name stops the scan there:
     * the records of the entries before it have been appended, and no record is made for it.
     */
    method GatherFiles(entries: seq<Path>, guess: Path -> string) returns (outcome: GatherOutcome)
      modifies this
      ensures outcome.Completed? <==> AllNamed(entries)
      ensures outcome.Completed? ==> files == old(files) + Described(entries, guess)
      ensures outcome.NoFileName? ==>
        && outcome.index < |entries|
        && FileName(entries[outcome.index]).None?
        && AllNamed(entries[..outcome.index])
        && files == old(files) + Described(entries[..outcome.index], guess)
      ensures |old(files)| <= |files| && files[..|old(files)|] == old(files)
      ensures forall k :: |old(files)| <= k < |files| ==> WellFormed(files[k])
    {
      var i := 0;
      while i < |entries|
        invariant 0 <= i <= |entries|
        invariant AllNamed(entries[..i])
        invariant files == old(files) + Described(entries[..i], guess)
        invariant forall k :: |old(files)| <= k < |files| ==> WellFormed(files[k])
      {
        var path := entries[i];
        var name := FileName(path);
        if name.None? {
          return NoFileName(i);
        }
        var mimeType := guess(path);
        var media := DetermineMedia(mimeType);
        files := files + [MediaFile(name.value, mimeType, "", media)];
        assert entries[..i + 1][..i] == entries[..i];
        i := i + 1;
      }
      assert entries[..i] == entries;
      return Completed;
    }
  }

  /** What a whole scan gives the page: every record, or a halt at the entry with no file name. */
  datatype ScanResult = Scanned(files: seq<MediaFile>) | Halted(index: nat)

  /**
   * Scan the entries into a fresh list, as the program does before rendering its page. A halt
   * leaves nothing to render.
   */
  method Scan(entries: seq<Path>, guess: Path -> string) returns (r: ScanResult)
    ensures r.Scanned? <==> AllNamed(entries)
    ensures r.Scanned? ==> r.files == Described(entries, guess)
    ensures r.Halted? ==>
      && r.index < |entries|
      && FileName(entries[r.index]).None?
      && AllNamed(entries[..r.index])
  {
    var list := new MediaList();
    var outcome := list.GatherFiles(entries, guess);
    if outcome.NoFileName? {
      return Halted(outcome.index);
    }
    return Scanned(list.files);
  }

  /** Three named entries are listed as their three descriptions, in order. */
  lemma DescribedThree(first: Path, second: Path, third: Path, guess: Path -> string)
    requires FileName(first).Some? && FileName(second).Some? && FileName(third).Some?
    ensures AllNamed([first, second, third])
    ensures Described([first, second, third], guess)
         == [Describe(first, guess), Describe(second, guess), Describe(third, guess)]
  {
    var entries := [first, second, third];
    RecordAtIsDescribe(entries, guess, 0);
    forall k | 0 <= k < 3 ensures Described(entries, guess)[k] == Describe(entries[k], guess) {
      RecordAtIsDescribe(entries, guess, k);
    }
  }

  /**
   * A directory holding song.mp3, clip.mp4 and notes.txt, whose mime types are guessed as
   * "audio/mpeg", "video/mp4" and "text/plain", is listed as one Audio, one Video and one Unknown
   * file, in the directory's order.
   */
  lemma ExampleGallery(dir: seq<Component>, guess: Path -> string)
    requires guess(Path(dir + [Normal("song.mp3")])) == "audio/mpeg"
    requires guess(Path(dir + [Normal("clip.mp4")])) == "video/mp4"
    requires guess(Path(dir + [Normal("notes.txt")])) == "text/plain"
    ensures var entries := [Path(dir + [Normal("song.mp3")]), Path(dir + [Normal("clip.mp4")]), Path(dir + [Normal("notes.txt")])];
      && AllNamed(entries)
      && Described(entries, guess) == [
           MediaFile("song.mp3", "audio/mpeg", "", Audio),
           MediaFile("clip.mp4", "video/mp4", "", Video),
           MediaFile("notes.txt", "text/plain", "", Unknown)]
  {
    DescribedThree(Path(dir + [Normal("song.mp3")]), Path(dir + [Normal("clip.mp4")]), Path(dir + [Normal("notes.txt")]), guess);
    ExampleAudio();
    ExampleVideo();
    ExampleUnknown();
  }
}
