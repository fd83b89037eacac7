/**
 `save_transcript` of src/utils/file_handler.py: create the output
 directory, then, for each requested format in order, write the file
 `{video_id}_{sanitized title}.{format}` with the matching serialiser and
 record its path under the format's name. Unknown formats are logged and
 skipped.

 The file system is a value: a set of directories, a map from paths to
 contents, and a set of paths the process may not create or open. A failing
 `mkdir` or `open` raises and ends the call; directories made and files
 written before the failure stay on disk.
 */
module Writer {
  import opened Text
  import opened Sanitize
  import opened Serializers

  /** A path as its list of components; `dir + [name]` is `dir / name`. */
  type Path = seq<string>

  datatype Fs = Fs(dirs: set<Path>, files: map<Path, string>, denied: set<Path>)

  datatype IoError =
    | MkdirFailed(dir: Path)
    | WriteFailed(fmt: string, path: Path)

  /**
   What the call leaves behind: on return, the format-to-path dictionary
   (in insertion order) and the logged unknown formats; on an exception,
   the error. Either way, the file system afterwards.
   */
  datatype Outcome =
    | Saved(outputs: seq<(string, Path)>, warnings: seq<string>, fs: Fs)
    | Raised(error: IoError, fs: Fs)

  /** `fmt in format_handlers`: the keys of the handler table. */
  predicate IsKnown(fmt: string) {
    fmt == "txt" || fmt == "srt" || fmt == "vtt" || fmt == "json" || fmt == "tsv"
  }

  /** `f"{video_id}_{sanitize_filename(video_title)}"`. */
  function BaseName(videoId: string, title: string): string {
    videoId + "_" + SanitizeFilename(title)
  }

  /** `output_dir / f"{base_filename}.{fmt}"`. */
  function Target(dir: Path, base: string, fmt: string): Path {
    dir + [base + "." + fmt]
  }

  /**
   The file name of every output is the video id, `_`, the sanitised title,
   `.` and the format: it has no invalid character from the title, and
   formats with different names get different files.
   */
  lemma TargetName(dir: Path, videoId: string, title: string, fmt: string)
    ensures var p := Target(dir, BaseName(videoId, title), fmt);
            var name := p[|p| - 1];
            var n := |videoId| + 1 + |title|;
            && |p| == |dir| + 1 && p[..|dir|] == dir
            && |name| == n + 1 + |fmt|
            && name[..|videoId|] == videoId && name[|videoId|] == '_'
            && name[|videoId| + 1..n] == SanitizeFilename(title)
            && name[n] == '.' && name[n + 1..] == fmt
  {
    TargetLayout(dir, videoId, SanitizeFilename(title), fmt);
  }

  /** Where the parts of `dir / "id_s.fmt"` sit in the path. */
  lemma TargetLayout(dir: Path, id: string, s: string, fmt: string)
    ensures var p := dir + [id + "_" + s + "." + fmt];
            var name := p[|p| - 1];
            var n := |id| + 1 + |s|;
            && |p| == |dir| + 1 && p[..|dir|] == dir
            && name == id + "_" + s + "." + fmt
            && |name| == n + 1 + |fmt|
            && name[..|id|] == id && name[|id|] == '_'
            && name[|id| + 1..n] == s
            && name[n] == '.' && name[n + 1..] == fmt
  {
    var p := dir + [id + "_" + s + "." + fmt];
    var name := id + "_" + s + "." + fmt;
    var n := |id| + 1 + |s|;
    assert p[..|dir|] == dir;
    assert name[..|id|] == id;
    assert name[|id| + 1..n] == s;
    assert name[n + 1..] == fmt;
  }

  /** Two formats share a target only when they are the same format. */
  lemma TargetInjective(dir: Path, base: string, f: string, g: string)
    ensures Target(dir, base, f) == Target(dir, base, g) <==> f == g
  {
    if Target(dir, base, f) == Target(dir, base, g) {
      var a, b := base + "." + f, base + "." + g;
      assert a == Target(dir, base, f)[|dir|] == b;
      assert f == a[|base| + 1..] == b[|base| + 1..] == g;
    }
  }

  /** The text the handler for a known format writes; `json` is given. */
  function Render(fmt: string, t: Transcription, jsonText: string): string {
    if fmt == "txt" then RenderTxt(t)
    else if fmt == "srt" then RenderSrt(t.segments)
    else if fmt == "vtt" then RenderVtt(t.segments)
    else if fmt == "tsv" then RenderTsv(t.segments)
    else jsonText
  }

  /**
   The `format_handlers` table as one function from format name to file
   content; only its values at known formats are ever used.
   */
  function Handler(t: Transcription, jsonText: string): string -> string {
    fmt => Render(fmt, t, jsonText)
  }

  // ---------------------------------------------------------------------------
  // The file system

  /** What `mkdir` leaves behind, and whether it raised. */
  datatype MkdirResult = Made(fs: Fs) | MkdirError(fs: Fs)

  /**
   `dir.mkdir(parents=True, exist_ok=True)` as pathlib runs it: an existing
   directory is left alone, whatever its permissions; a path that is a file
   raises at once; a missing parent is made first, top down; a path the
   process may not create raises, and the parents made before it stay. The
   empty path is the current directory, which exists.
   */
  function Mkdir(fs: Fs, dir: Path): (r: MkdirResult)
    ensures r.fs.files == fs.files && r.fs.denied == fs.denied
    ensures fs.dirs <= r.fs.dirs
    ensures r.Made? ==> dir == [] || dir in r.fs.dirs
    decreases |dir|
  {
    if dir == [] || dir in fs.dirs then Made(fs)
    else if dir in fs.files then MkdirError(fs)
    else
      var up := Mkdir(fs, dir[..|dir| - 1]);
      if up.MkdirError? then up
      else if dir in up.fs.denied then MkdirError(up.fs)
      else Made(up.fs.(dirs := up.fs.dirs + {dir}))
  }

  /** `mkdir` has to create `dir[..k]`: neither it nor any deeper prefix of `dir` exists. */
  predicate MustCreate(fs: Fs, dir: Path, k: int) {
    0 < k <= |dir| && forall i :: k <= i <= |dir| ==> dir[..i] !in fs.dirs
  }

  /** The directories `mkdir` has to create for `dir`. */
  function Missing(fs: Fs, dir: Path): set<Path> {
    set k | 0 < k <= |dir| && MustCreate(fs, dir, k) :: dir[..k]
  }

  /** `mkdir` raises when a directory it has to create is a file or a forbidden path. */
  predicate MkdirFails(fs: Fs, dir: Path) {
    exists k :: 0 < k <= |dir| && MustCreate(fs, dir, k) && (dir[..k] in fs.files || dir[..k] in fs.denied)
  }

  /**
   `Mkdir` raises exactly when `MkdirFails` says so. On success it has made
   exactly the missing directories; on failure it has made some of them, and
   never `dir` itself.
   */
  lemma {:induction false} MkdirSpec(fs: Fs, dir: Path)
    ensures Mkdir(fs, dir).MkdirError? <==> MkdirFails(fs, dir)
    ensures Mkdir(fs, dir).Made? ==> Mkdir(fs, dir).fs.dirs == fs.dirs + Missing(fs, dir)
    ensures Mkdir(fs, dir).MkdirError? ==>
              Mkdir(fs, dir).fs.dirs <= fs.dirs + Missing(fs, dir) && dir !in Mkdir(fs, dir).fs.dirs
    decreases |dir|
  {
    if dir == [] {
    } else if dir in fs.dirs {
      NothingMissing(fs, dir);
    } else {
      var p := dir[..|dir| - 1];
      MissingStep(fs, dir);
      if dir !in fs.files {
        MkdirSpec(fs, p);
      }
    }
  }

  /** For an existing directory nothing has to be made. */
  lemma NothingMissing(fs: Fs, dir: Path)
    requires dir in fs.dirs
    ensures !MkdirFails(fs, dir) && Missing(fs, dir) == {}
  {
    assert dir[..|dir|] == dir;
  }

  /**
   For a missing directory, what has to be made is what its parent needs
   plus the directory itself, and it fails where the parent fails or where
   the directory itself is a file or forbidden.
   */
  lemma MissingStep(fs: Fs, dir: Path)
    requires dir != [] && dir !in fs.dirs
    ensures var p := dir[..|dir| - 1];
            && Missing(fs, dir) == Missing(fs, p) + {dir}
            && (MkdirFails(fs, dir) <==> MkdirFails(fs, p) || dir in fs.files || dir in fs.denied)
  {
    var n, p := |dir|, dir[..|dir| - 1];
    assert dir[..n] == dir;
    MustCreateStep(fs, dir);
    assert MustCreate(fs, dir, n);
    assert forall k :: 0 < k < n ==> p[..k] == dir[..k];
  }

  lemma MustCreateStep(fs: Fs, dir: Path)
    requires dir != [] && dir !in fs.dirs
    ensures forall k :: MustCreate(fs, dir, k) <==> k == |dir| || MustCreate(fs, dir[..|dir| - 1], k)
  {
    var n, p := |dir|, dir[..|dir| - 1];
    assert dir[..n] == dir;
    forall k ensures MustCreate(fs, dir, k) <==> k == n || MustCreate(fs, p, k)
    {
      if 0 < k < n {
        assert forall i :: k <= i < n ==> p[..i] == dir[..i];
      }
    }
  }

  /** `open(p, 'w')` raises on a forbidden path and on a directory. */
  predicate WriteFails(fs: Fs, p: Path) {
    p in fs.denied || p in fs.dirs
  }

  // ---------------------------------------------------------------------------
  // Reference definitions, read left to right over the requested formats

  /** The known formats of `formats`, each at its first request, in request order. */
  function DedupKnown(formats: seq<string>): seq<string> {
    if formats == [] then []
    else
      var d := DedupKnown(formats[..|formats| - 1]);
      var f := formats[|formats| - 1];
      if IsKnown(f) && f !in d then d + [f] else d
  }

  /** The unknown formats of `formats`, in order, once per request. */
  function Unknowns(formats: seq<string>): seq<string> {
    if formats == [] then []
    else
      var u := Unknowns(formats[..|formats| - 1]);
      var f := formats[|formats| - 1];
      if IsKnown(f) then u else u + [f]
  }

  /** The files the loop writes for `formats`, each with the content `contents` gives its format. */
  function Planned(contents: string -> string, dir: Path, base: string, formats: seq<string>): map<Path, string> {
    if formats == [] then map[]
    else
      var m := Planned(contents, dir, base, formats[..|formats| - 1]);
      var f := formats[|formats| - 1];
      if IsKnown(f) then m[Target(dir, base, f) := contents(f)] else m
  }

  /** The result dictionary for the given keys: each key maps to its target. */
  function Entries(dir: Path, base: string, keys: seq<string>): (r: seq<(string, Path)>)
    ensures |r| == |keys|
    ensures forall j :: 0 <= j < |keys| ==> r[j] == (keys[j], Target(dir, base, keys[j]))
  {
    seq(|keys|, j requires 0 <= j < |keys| => (keys[j], Target(dir, base, keys[j])))
  }

  /** Position of the first occurrence of `x` in `s`. */
  function FirstIndex(s: seq<string>, x: string): (i: nat)
    requires x in s
    ensures i < |s| && s[i] == x && x !in s[..i]
  {
    if s[0] == x then 0 else 1 + FirstIndex(s[1..], x)
  }

  /**
   `output_files[key] = value` on a dictionary kept as its list of items in
   insertion order: an existing key keeps its place, a new one goes last.
   */
  function Put(items: seq<(string, Path)>, key: string, value: Path): seq<(string, Path)> {
    if items == [] then [(key, value)]
    else if items[0].0 == key then [(key, value)] + items[1..]
    else [items[0]] + Put(items[1..], key, value)
  }

  // ---------------------------------------------------------------------------
  // Properties of the reference definitions

  /** One more requested format extends each reference definition by at most one entry. */
  lemma Step(contents: string -> string, dir: Path, base: string, formats: seq<string>, i: nat)
    requires i < |formats|
    ensures var f, d := formats[i], DedupKnown(formats[..i]);
            DedupKnown(formats[..i + 1]) == if IsKnown(f) && f !in d then d + [f] else d
    ensures var f := formats[i];
            Unknowns(formats[..i + 1]) == if IsKnown(f) then Unknowns(formats[..i]) else Unknowns(formats[..i]) + [f]
    ensures var f, m := formats[i], Planned(contents, dir, base, formats[..i]);
            Planned(contents, dir, base, formats[..i + 1])
              == if IsKnown(f) then m[Target(dir, base, f) := contents(f)] else m
  {
    assert formats[..i + 1][..i] == formats[..i];
  }

  /**
   The keys of the result: each known requested format exactly once, no
   unknown one, in the order of their first requests.
   */
  lemma {:induction false} DedupKnownSpec(formats: seq<string>)
    ensures var d := DedupKnown(formats);
            && (forall x :: x in d <==> x in formats && IsKnown(x))
            && (forall i, j :: 0 <= i < j < |d| ==> d[i] != d[j])
            && (forall i, j :: 0 <= i < j < |d| ==> FirstIndex(formats, d[i]) < FirstIndex(formats, d[j]))
  {
    if formats != [] {
      var n := |formats| - 1;
      var s, f := formats[..n], formats[n];
      assert formats == s + [f];
      DedupKnownSpec(s);
      var d0 := DedupKnown(s);
      forall x | x in s
        ensures FirstIndex(formats, x) == FirstIndex(s, x)
      {
        FirstIndexExtend(s, f, x);
      }
      if IsKnown(f) && f !in d0 {
        assert f !in s;
        FirstIndexLast(s, f);
      }
    }
  }

  lemma {:induction false} FirstIndexExtend(s: seq<string>, f: string, x: string)
    requires x in s
    ensures FirstIndex(s + [f], x) == FirstIndex(s, x)
  {
    if s[0] != x {
      assert (s + [f])[1..] == s[1..] + [f];
      FirstIndexExtend(s[1..], f, x);
    }
  }

  lemma {:induction false} FirstIndexLast(s: seq<string>, f: string)
    requires f !in s
    ensures FirstIndex(s + [f], f) == |s|
  {
    if s != [] {
      assert (s + [f])[1..] == s[1..] + [f];
      FirstIndexLast(s[1..], f);
    }
  }

  /** The warnings name exactly the unknown requested formats, once per request. */
  lemma {:induction false} UnknownsSpec(formats: seq<string>)
    ensures forall x :: x in Unknowns(formats) <==> x in formats && !IsKnown(x)
    ensures forall x :: multiset(Unknowns(formats))[x] == if IsKnown(x) then 0 else multiset(formats)[x]
    ensures |Unknowns(formats)| + |DedupKnown(formats)| <= |formats|
  {
    if formats != [] {
      var n := |formats| - 1;
      assert formats == formats[..n] + [formats[n]];
      UnknownsSpec(formats[..n]);
    }
  }

  /**
   The loop writes one file per known requested format, at that format's
   target and with that format's content, and nothing for unknown formats.
   */
  lemma {:induction false} PlannedSpec(contents: string -> string, dir: Path, base: string, formats: seq<string>)
    ensures var m := Planned(contents, dir, base, formats);
            && m.Keys == (set f | f in formats && IsKnown(f) :: Target(dir, base, f))
            && forall f :: f in formats && IsKnown(f) ==> m[Target(dir, base, f)] == contents(f)
  {
    if formats != [] {
      var n := |formats| - 1;
      var s, g := formats[..n], formats[n];
      assert formats == s + [g];
      PlannedSpec(contents, dir, base, s);
      forall f | f in formats && IsKnown(f)
        ensures Planned(contents, dir, base, formats)[Target(dir, base, f)] == contents(f)
      {
        TargetInjective(dir, base, f, g);
      }
    }
  }

  /** Storing a key's own target either leaves the dictionary alone or appends the key. */
  lemma {:induction false} PutEntries(dir: Path, base: string, keys: seq<string>, key: string)
    ensures Put(Entries(dir, base, keys), key, Target(dir, base, key))
         == Entries(dir, base, if key in keys then keys else keys + [key])
    decreases |keys|
  {
    var e, entry := Entries(dir, base, keys), (key, Target(dir, base, key));
    if keys == [] {
      assert Entries(dir, base, [key]) == [entry];
    } else {
      EntriesCons(dir, base, keys[0], keys[1..]);
      assert keys == [keys[0]] + keys[1..];
      if keys[0] == key {
        assert Put(e, key, entry.1) == [entry] + e[1..];
      } else {
        PutEntries(dir, base, keys[1..], key);
        var rest := if key in keys[1..] then keys[1..] else keys[1..] + [key];
        assert Put(e, key, entry.1) == [e[0]] + Entries(dir, base, rest);
        assert (if key in keys then keys else keys + [key]) == [keys[0]] + rest;
        EntriesCons(dir, base, keys[0], rest);
      }
    }
  }

  /** The entries of `[k] + ks` are the entry of `k` followed by those of `ks`. */
  lemma EntriesCons(dir: Path, base: string, k: string, ks: seq<string>)
    ensures Entries(dir, base, [k] + ks) == [(k, Target(dir, base, k))] + Entries(dir, base, ks)
  {
    var l, r := Entries(dir, base, [k] + ks), [(k, Target(dir, base, k))] + Entries(dir, base, ks);
    forall j | 0 <= j < |l|
      ensures l[j] == r[j]
    {
      if j > 0 {
        assert ([k] + ks)[j] == ks[j - 1];
      }
    }
  }

  // ---------------------------------------------------------------------------
  // save_transcript

  /** The next position keeps every target so far writable. */
  lemma WritableStep(fs: Fs, dir: Path, base: string, formats: seq<string>, i: nat)
    requires i < |formats| && WritableUpTo(fs, dir, base, formats, i)
    requires IsKnown(formats[i]) ==> !WriteFails(fs, Target(dir, base, formats[i]))
    ensures WritableUpTo(fs, dir, base, formats, i + 1)
  {
  }

  /** Writing into the union is writing into its right-hand part. */
  lemma UpdateUnion(a: map<Path, string>, b: map<Path, string>, k: Path, v: string)
    ensures (a + b)[k := v] == a + b[k := v]
  {
  }

  /** The known formats before position `i` all have a writable target. */
  predicate WritableUpTo(fs: Fs, dir: Path, base: string, formats: seq<string>, i: nat)
    requires i <= |formats|
  {
    forall j :: 0 <= j < i && IsKnown(formats[j]) ==> !WriteFails(fs, Target(dir, base, formats[j]))
  }

  /**
   The loop of `save_transcript` over `formats`, starting from `fs` (where
   the output directory exists): it stops at the first known format whose
   file cannot be opened, and otherwise returns the dictionary and the
   warnings. `contents` gives the text written for each known format.
   */
  method WriteAll(contents: string -> string, dir: Path, base: string, formats: seq<string>, fs: Fs)
    returns (out: Outcome)
    ensures WritableUpTo(fs, dir, base, formats, |formats|) ==>
              out == Saved(Entries(dir, base, DedupKnown(formats)), Unknowns(formats),
                           fs.(files := fs.files + Planned(contents, dir, base, formats)))
    ensures forall i :: 0 <= i < |formats| && WritableUpTo(fs, dir, base, formats, i)
                        && IsKnown(formats[i]) && WriteFails(fs, Target(dir, base, formats[i])) ==>
              out == Raised(WriteFailed(formats[i], Target(dir, base, formats[i])),
                            fs.(files := fs.files + Planned(contents, dir, base, formats[..i])))
  {
    var cur := fs;
    var outputs: seq<(string, Path)> := [];
    var warnings: seq<string> := [];
    var i := 0;
    assert formats[..0] == [];
    assert fs.files + map[] == fs.files;
    while i < |formats|
      invariant 0 <= i <= |formats|
      invariant WritableUpTo(fs, dir, base, formats, i)
      invariant outputs == Entries(dir, base, DedupKnown(formats[..i]))
      invariant warnings == Unknowns(formats[..i])
      invariant cur == fs.(files := fs.files + Planned(contents, dir, base, formats[..i]))
    {
      var fmt := formats[i];
      Step(contents, dir, base, formats, i);
      if IsKnown(fmt) {
        var path := Target(dir, base, fmt);
        if WriteFails(cur, path) {
          out := Raised(WriteFailed(fmt, path), cur);
          FirstFailure(fs, dir, base, formats, i);
          return;
        }
        var content := contents(fmt);
        UpdateUnion(fs.files, Planned(contents, dir, base, formats[..i]), path, content);
        WritableStep(fs, dir, base, formats, i);
        cur := cur.(files := cur.files[path := content]);
        PutEntries(dir, base, DedupKnown(formats[..i]), fmt);
        outputs := Put(outputs, fmt, path);
      } else {
        WritableStep(fs, dir, base, formats, i);
        warnings := warnings + [fmt];
      }
      i := i + 1;
    }
    assert formats[..i] == formats;
    out := Saved(outputs, warnings, cur);
    NoFailure(fs, dir, base, formats);
  }

  /** When every target is writable, no position is a first failure. */
  lemma NoFailure(fs: Fs, dir: Path, base: string, formats: seq<string>)
    requires WritableUpTo(fs, dir, base, formats, |formats|)
    ensures forall i :: 0 <= i < |formats| && IsKnown(formats[i]) ==> !WriteFails(fs, Target(dir, base, formats[i]))
  {
  }

  /** A first failure at `i` is the only first failure, and not every target is writable. */
  lemma FirstFailure(fs: Fs, dir: Path, base: string, formats: seq<string>, i: nat)
    requires i < |formats| && WritableUpTo(fs, dir, base, formats, i)
    requires IsKnown(formats[i]) && WriteFails(fs, Target(dir, base, formats[i]))
    ensures !WritableUpTo(fs, dir, base, formats, |formats|)
    ensures forall k :: 0 <= k < |formats| && WritableUpTo(fs, dir, base, formats, k)
                        && IsKnown(formats[k]) && WriteFails(fs, Target(dir, base, formats[k]))
              ==> k == i
  {
  }

  /**
   `save_transcript(result, video_id, video_title, output_dir, formats)`,
   with the JSON document the `json` handler would write given as
   `jsonText`.
   */
  method SaveTranscript(t: Transcription, jsonText: string, videoId: string, title: string,
                        dir: Path, formats: seq<string>, fs0: Fs) returns (out: Outcome)
    // A failing mkdir raises before any file is written; the parents it
    // made stay.
    ensures MkdirFails(fs0, dir) ==> out == Raised(MkdirFailed(dir), Mkdir(fs0, dir).fs)
    // With every target writable the call returns: the dictionary has the
    // known formats in first-request order, each mapped to its target; the
    // unknown ones are logged; the missing directories are made and exactly
    // the planned files are (over)written.
    ensures var base := BaseName(videoId, title);
            var fs1 := fs0.(dirs := fs0.dirs + Missing(fs0, dir));
            var keys := DedupKnown(formats);
            !MkdirFails(fs0, dir) && WritableUpTo(fs1, dir, base, formats, |formats|) ==>
              && out.Saved?
              && |out.outputs| == |keys|
              && (forall j :: 0 <= j < |keys| ==> out.outputs[j] == (keys[j], Target(dir, base, keys[j])))
              && out.warnings == Unknowns(formats)
              && out.fs == fs1.(files := fs0.files + Planned(Handler(t, jsonText), dir, base, formats))
    // The first known format whose file cannot be opened raises; the files
    // of the formats before it stay written.
    ensures var base := BaseName(videoId, title);
            var fs1 := fs0.(dirs := fs0.dirs + Missing(fs0, dir));
            forall i :: 0 <= i < |formats| && !MkdirFails(fs0, dir) && WritableUpTo(fs1, dir, base, formats, i)
                        && IsKnown(formats[i]) && WriteFails(fs1, Target(dir, base, formats[i])) ==>
              out == Raised(WriteFailed(formats[i], Target(dir, base, formats[i])),
                            fs1.(files := fs0.files + Planned(Handler(t, jsonText), dir, base, formats[..i])))
  {
    var made := Mkdir(fs0, dir);
    MkdirSpec(fs0, dir);
    if made.MkdirError? {
      return Raised(MkdirFailed(dir), made.fs);
    }
    var fs1 := made.fs;
    assert fs1 == fs0.(dirs := fs0.dirs + Missing(fs0, dir));
    out := WriteAll(Handler(t, jsonText), dir, BaseName(videoId, title), formats, fs1);
  }
}
