/** `process_gcs_uri`: a Google Cloud Storage URI `gs://bucket/dir/.../file.ext`
    broken into scheme, bucket, path and file by splitting on `/`. */
module GcsUri {
  import opened PyText
  import opened Failures

  datatype GcsParts = GcsParts(scheme: string, bucket: string, path: string, file: string)

  /** The last `/`-separated segment of `uri` (Python `url_arr[-1]`): the
      text after the last `/`, or the whole URI when it has none. */
  function LastSegment(uri: string): (r: string)
    ensures '/' !in r
    ensures '/' !in uri ==> r == uri
    ensures '/' in uri ==> EndsWith(uri, "/" + r)
  {
    var segs := Split(uri, '/');
    JoinSplit(uri, '/');
    if |segs| >= 2 then
      JoinLast(segs, '/');
      assert uri[|uri| - |segs[|segs| - 1]| - 1] == '/';
      segs[|segs| - 1]
    else
      segs[0]
  }

  /** The segments left once a last segment holding a `.` has been popped as the file. */
  function KeptSegments(uri: string): (kept: seq<string>)
    ensures forall i :: 0 <= i < |kept| ==> '/' !in kept[i]
  {
    var segs := Split(uri, '/');
    if '.' in segs[|segs| - 1] then segs[..|segs| - 1] else segs
  }

  /** The path text before the one trailing `/` is stripped. */
  function JoinedPath(uri: string): string
    requires |KeptSegments(uri)| >= 3
  {
    Join(KeptSegments(uri)[3..], '/')
  }

  /** What `process_gcs_uri` returns, or the IndexError it raises when fewer
      than three segments remain for `url_arr[0]` and `url_arr[2]`. */
  function ParseGcsUri(uri: string): (r: Result<GcsParts>)
    ensures r.Ok? ==> '/' !in r.value.scheme && '/' !in r.value.bucket && '/' !in r.value.file
    ensures r.Ok? ==> r.value.file == "" || '.' in r.value.file
  {
    var kept := KeptSegments(uri);
    if |kept| < 3 then Err(IndexOutOfRange)
    else
      var joined := JoinedPath(uri);
      var path := if EndsWithChar(joined, '/') then joined[..|joined| - 1] else joined;
      var file := if '.' in LastSegment(uri) then LastSegment(uri) else "";
      Ok(GcsParts(kept[0], kept[2], path, file))
  }

  /** The function as the trainer writes it: split, pop the file if the last
      segment has a `.`, index the scheme and bucket, join and trim the path. */
  method ProcessGcsUri(uri: string) returns (r: Result<GcsParts>)
    ensures r == ParseGcsUri(uri)
  {
    var urlArr := Split(uri, '/');
    var file: string;
    if '.' !in urlArr[|urlArr| - 1] {
      file := "";
    } else {
      file := urlArr[|urlArr| - 1];
      urlArr := urlArr[..|urlArr| - 1];
    }
    if |urlArr| == 0 {
      return Err(IndexOutOfRange);
    }
    var scheme := urlArr[0];
    if |urlArr| < 3 {
      return Err(IndexOutOfRange);
    }
    var bucket := urlArr[2];
    var path := Join(urlArr[3..], '/');
    path := if EndsWithChar(path, '/') then path[..|path| - 1] else path;
    return Ok(GcsParts(scheme, bucket, path, file));
  }

  /** Parsing succeeds exactly when the URI holds at least two `/`, plus one
      more when its last segment is taken as a file. */
  lemma ParseSucceedsIff(uri: string)
    ensures ParseGcsUri(uri).Ok? <==>
      Count(uri, '/') >= (if '.' in LastSegment(uri) then 3 else 2)
  {
    SplitLength(uri, '/');
  }

  /** The file is non-empty exactly when the last segment contains a `.`;
      it is then that segment, and it was cut off the end of the URI before
      the scheme, bucket and path were read. */
  lemma FileIsLastSegment(uri: string)
    requires ParseGcsUri(uri).Ok?
    ensures var p := ParseGcsUri(uri).value;
      && (p.file != "" <==> '.' in LastSegment(uri))
      && (p.file != "" ==> p.file == LastSegment(uri) && uri == Join(KeptSegments(uri), '/') + "/" + p.file)
      && (p.file == "" ==> uri == Join(KeptSegments(uri), '/'))
  {
    var segs := Split(uri, '/');
    var kept := KeptSegments(uri);
    JoinSplit(uri, '/');
    if '.' in segs[|segs| - 1] {
      assert segs == kept + [segs[|segs| - 1]];
      JoinAppend(kept, [segs[|segs| - 1]], '/');
    }
  }

  /** The kept segments joined back: the first three segments, then the
      path text before its trailing `/` was stripped. */
  lemma {:induction false} KeptSegmentsText(uri: string)
    requires |KeptSegments(uri)| >= 3
    ensures var kept := KeptSegments(uri);
      Join(kept, '/') == kept[0] + "/" + kept[1] + "/" + kept[2]
        + (if |kept| == 3 then "" else "/" + JoinedPath(uri))
  {
    var kept := KeptSegments(uri);
    var first := kept[..3];
    assert Join(first, '/') == kept[0] + "/" + kept[1] + "/" + kept[2] by {
      assert first[1..][1..] == [kept[2]];
      assert Join(first[1..], '/') == kept[1] + "/" + kept[2];
    }
    if |kept| == 3 {
      assert kept == first;
    } else {
      assert kept == first + kept[3..];
      JoinAppend(first, kept[3..], '/');
    }
  }

  /** The URI reads, from its start: the scheme, a `/`, the second segment,
      a `/` and the bucket; then nothing when no segment follows the bucket,
      or else a `/`, the path and, exactly when the joined segments ended
      with `/`, the one `/` that was stripped; then the file, if any. */
  lemma Reassembly(uri: string)
    requires ParseGcsUri(uri).Ok?
    ensures var p := ParseGcsUri(uri).value;
      var kept := KeptSegments(uri);
      var head := p.scheme + "/" + Split(uri, '/')[1] + "/" + p.bucket;
      var tail := if p.file == "" then "" else "/" + p.file;
      && (|kept| == 3 ==> p.path == "" && uri == head + tail)
      && (|kept| > 3 && EndsWithChar(JoinedPath(uri), '/') ==> uri == head + "/" + p.path + "/" + tail)
      && (|kept| > 3 && !EndsWithChar(JoinedPath(uri), '/') ==> uri == head + "/" + p.path + tail)
  {
    var p := ParseGcsUri(uri).value;
    var kept := KeptSegments(uri);
    var head := kept[0] + "/" + kept[1] + "/" + kept[2];
    var tail := if p.file == "" then "" else "/" + p.file;
    var joined := JoinedPath(uri);
    assert uri == Join(kept, '/') + tail by {
      FileIsLastSegment(uri);
    }
    assert Join(kept, '/') == head + (if |kept| == 3 then "" else "/" + joined) by {
      KeptSegmentsText(uri);
    }
    assert |kept| == 3 ==> joined == "";
    UriShape(uri, head, |kept| == 3, joined, p.path, tail);
  }

  /** The concatenation behind Reassembly, over plain strings. */
  lemma UriShape(uri: string, head: string, short: bool, joined: string, path: string, tail: string)
    requires uri == head + (if short then "" else "/" + joined) + tail
    requires path == if EndsWithChar(joined, '/') then joined[..|joined| - 1] else joined
    requires short ==> joined == ""
    ensures short ==> path == "" && uri == head + tail
    ensures !short && EndsWithChar(joined, '/') ==> uri == head + "/" + path + "/" + tail
    ensures !short && !EndsWithChar(joined, '/') ==> uri == head + "/" + path + tail
  {
    if short {
      assert head + "" + tail == head + tail;
    } else {
      PathReassembled(uri, head, joined, path, tail);
    }
  }

  lemma PathReassembled(uri: string, head: string, joined: string, path: string, tail: string)
    requires uri == head + ("/" + joined) + tail
    requires path == if EndsWithChar(joined, '/') then joined[..|joined| - 1] else joined
    ensures EndsWithChar(joined, '/') ==> uri == head + "/" + path + "/" + tail
    ensures !EndsWithChar(joined, '/') ==> uri == head + "/" + path + tail
  {
    if EndsWithChar(joined, '/') {
      assert joined == path + "/";
    }
  }

  /** `gs://bucket/path/file` written back out; an empty path or file leaves
      out its `/`. */
  function GcsUriText(p: GcsParts): string
  {
    p.scheme + "//" + p.bucket
      + (if p.path == "" then "" else "/" + p.path)
      + (if p.file == "" then "" else "/" + p.file)
  }

  /** The segments the path contributes to the URI. */
  function PathSegments(path: string): seq<string>
  {
    if path == "" then [] else Split(path, '/')
  }

  /** The parts a URI can carry so that parsing gives them back: no `/` in
      scheme, bucket or file; no trailing `/` on the path; a file has a `.`;
      and without a file, the last segment (of the path, or else the bucket)
      has none, or it would be taken for the file. */
  predicate WellFormed(p: GcsParts)
  {
    var lastSegs := [p.bucket] + PathSegments(p.path);
    && '/' !in p.scheme && '/' !in p.bucket && '/' !in p.file
    && !EndsWithChar(p.path, '/')
    && (p.file != "" ==> '.' in p.file)
    && (p.file == "" ==> '.' !in lastSegs[|lastSegs| - 1])
  }

  lemma {:induction false} GcsUriTextSegments(p: GcsParts)
    requires '/' !in p.scheme && '/' !in p.bucket && '/' !in p.file
    ensures var fileSegs := if p.file == "" then [] else [p.file];
      Split(GcsUriText(p), '/') == [p.scheme, "", p.bucket] + PathSegments(p.path) + fileSegs
  {
    var head := [p.scheme, "", p.bucket];
    var ps := PathSegments(p.path);
    var fileSegs := if p.file == "" then [] else [p.file];
    var segs := head + ps + fileSegs;
    assert Join(head, '/') == p.scheme + "//" + p.bucket by {
      assert head[1..][1..] == [p.bucket];
      assert Join(head[1..], '/') == "/" + p.bucket;
      assert p.scheme + "/" + ("/" + p.bucket) == p.scheme + "//" + p.bucket;
    }
    var withPath := p.scheme + "//" + p.bucket + (if p.path == "" then "" else "/" + p.path);
    assert Join(head + ps, '/') == withPath by {
      if p.path == "" {
        assert head + ps == head;
      } else {
        JoinAppend(head, ps, '/');
        JoinSplit(p.path, '/');
      }
    }
    assert Join(segs, '/') == GcsUriText(p) by {
      if p.file == "" {
        assert segs == head + ps;
      } else {
        JoinAppend(head + ps, fileSegs, '/');
      }
    }
    forall i | 0 <= i < |segs| ensures '/' !in segs[i] {
      if i >= 3 && i < 3 + |ps| {
        assert segs[i] == ps[i - 3];
      }
    }
    SplitJoin(segs, '/');
  }

  /** Round trip: a well-formed URI written out parses back to its parts. */
  lemma {:induction false} ParseGcsUriText(p: GcsParts)
    requires WellFormed(p)
    ensures ParseGcsUri(GcsUriText(p)) == Ok(p)
  {
    var uri := GcsUriText(p);
    var head := [p.scheme, "", p.bucket];
    var ps := PathSegments(p.path);
    var fileSegs := if p.file == "" then [] else [p.file];
    GcsUriTextSegments(p);
    var segs := Split(uri, '/');
    assert segs == head + ps + fileSegs;
    var kept := KeptSegments(uri);
    if p.file == "" {
      var lastSegs := [p.bucket] + ps;
      assert segs[|segs| - 1] == lastSegs[|lastSegs| - 1];
      assert kept == head + ps;
    } else {
      assert segs[|segs| - 1] == p.file;
      assert kept == head + ps;
    }
    assert kept[3..] == ps;
    assert Join(ps, '/') == p.path by {
      if p.path != "" { JoinSplit(p.path, '/'); }
    }
  }

  /** Round trip with a trailing `/`: a directory URI written out and ended
      with `/` parses back to its scheme, bucket and path, whatever the path
      (the one `/` stripped is the one added), and with no file. */
  lemma TrailingSlashParsesBack(scheme: string, bucket: string, path: string)
    requires '/' !in scheme && '/' !in bucket
    ensures ParseGcsUri(GcsUriText(GcsParts(scheme, bucket, path, "")) + "/")
         == Ok(GcsParts(scheme, bucket, path, ""))
  {
    var uri := GcsUriText(GcsParts(scheme, bucket, path, "")) + "/";
    var ps := PathSegments(path);
    TrailingSlashSegments(scheme, bucket, path);
    assert KeptSegments(uri) == [scheme, "", bucket] + ps + [""];
    assert KeptSegments(uri)[3..] == ps + [""];
    if path == "" {
      assert ps + [""] == [""];
    } else {
      JoinAppend(ps, [""], '/');
      JoinSplit(path, '/');
      var joined := JoinedPath(uri);
      assert joined == path + "/";
      assert EndsWithChar(joined, '/') && joined[..|joined| - 1] == path;
    }
  }

  /** The segments of a directory URI ended with `/`: those of the URI and
      one empty segment. */
  lemma TrailingSlashSegments(scheme: string, bucket: string, path: string)
    requires '/' !in scheme && '/' !in bucket
    ensures Split(GcsUriText(GcsParts(scheme, bucket, path, "")) + "/", '/')
         == [scheme, "", bucket] + PathSegments(path) + [""]
  {
    var p := GcsParts(scheme, bucket, path, "");
    var text := GcsUriText(p);
    var segs := [scheme, "", bucket] + PathSegments(path);
    GcsUriTextSegments(p);
    assert Split(text, '/') == segs;
    JoinSplit(text, '/');
    JoinAppend(segs, [""], '/');
    assert Join(segs + [""], '/') == text + "/";
    SplitsInto(text + "/", segs + [""]);
  }

  lemma JoinCons(x: string, rest: seq<string>)
    requires |rest| >= 1
    ensures Join([x] + rest, '/') == x + "/" + Join(rest, '/')
  {
    assert ([x] + rest)[1..] == rest;
  }

  /** A URI whose segments are the given slash-free parts splits into them. */
  lemma SplitsInto(uri: string, parts: seq<string>)
    requires |parts| >= 1
    requires forall i :: 0 <= i < |parts| ==> '/' !in parts[i]
    requires Join(parts, '/') == uri
    ensures Split(uri, '/') == parts
  {
    SplitJoin(parts, '/');
  }

  /** A bucket name with a `.` and nothing after it is popped as a file,
      which leaves too few segments: `gs://my.bucket` raises IndexError. */
  lemma DottedBucketFails(scheme: string, bucket: string)
    requires '/' !in scheme && '/' !in bucket && '.' in bucket
    ensures ParseGcsUri(scheme + "//" + bucket) == Err(IndexOutOfRange)
  {
    var uri := scheme + "//" + bucket;
    var parts := [scheme, "", bucket];
    assert Join(parts, '/') == uri by {
      JoinCons("", [bucket]);
      JoinCons(scheme, ["", bucket]);
    }
    SplitsInto(uri, parts);
    assert |KeptSegments(uri)| == 2;
  }

  /** A last directory name with a `.` is taken for the file:
      `gs://b/run.v2` has an empty path and file `run.v2`. */
  lemma DottedDirectoryIsFile(scheme: string, bucket: string, dir: string)
    requires '/' !in scheme && '/' !in bucket && '/' !in dir && '.' in dir
    ensures ParseGcsUri(scheme + "//" + bucket + "/" + dir) == Ok(GcsParts(scheme, bucket, "", dir))
  {
    var uri := scheme + "//" + bucket + "/" + dir;
    var parts := [scheme, "", bucket, dir];
    assert Join(parts, '/') == uri by {
      JoinCons(bucket, [dir]);
      JoinCons("", [bucket, dir]);
      JoinCons(scheme, ["", bucket, dir]);
    }
    SplitsInto(uri, parts);
    assert KeptSegments(uri) == parts[..3];
    assert JoinedPath(uri) == "";
  }

  /** Only one trailing `/` is stripped: `gs://b/p//` has path `p/`. */
  lemma DoubleTrailingSlashStrippedOnce(scheme: string, bucket: string, dir: string)
    requires '/' !in scheme && '/' !in bucket && '/' !in dir
    ensures ParseGcsUri(scheme + "//" + bucket + "/" + dir + "//")
         == Ok(GcsParts(scheme, bucket, dir + "/", ""))
  {
    var uri := scheme + "//" + bucket + "/" + dir + "//";
    var parts := [scheme, "", bucket, dir, "", ""];
    assert Join(parts[3..], '/') == dir + "//" by {
      JoinCons("", [""]);
      JoinCons(dir, ["", ""]);
      assert parts[3..] == [dir, "", ""];
    }
    assert Join(parts, '/') == uri by {
      var tail := parts[3..];
      JoinCons(bucket, tail);
      assert [""] + ([bucket] + tail) == ["", bucket] + tail;
      JoinCons("", [bucket] + tail);
      assert [scheme] + (["", bucket] + tail) == parts;
      JoinCons(scheme, ["", bucket] + tail);
      assert scheme + "/" + ("" + "/" + (bucket + "/" + (dir + "//"))) == uri;
    }
    SplitsInto(uri, parts);
    assert KeptSegments(uri) == parts;
    var joined := JoinedPath(uri);
    assert joined == dir + "//";
    assert EndsWithChar(joined, '/') && joined[..|joined| - 1] == dir + "/";
  }

  /** With a single `/` there is no bucket segment: IndexError. */
  lemma MissingBucketFails(scheme: string, rest: string)
    requires '/' !in scheme && '/' !in rest
    ensures ParseGcsUri(scheme + "/" + rest) == Err(IndexOutOfRange)
  {
    SplitsInto(scheme + "/" + rest, [scheme, rest]);
  }
}
