/** The location strings `pipeline_export_gcs` and `report_export_gcs` return:
    the directory URI is parsed, its scheme must be `gs:`, and the file name
    is joined onto the path and then onto the bucket. The upload itself is
    not part of this model. */
module GcsExport {
  import opened PyText
  import opened Failures
  import opened GcsUri

  const ModelFile: string := "model.pkl"
  const ReportFile: string := "report.txt"

  /** What the two export functions return once the directory URI has been
      parsed: the parse error comes first, then ValueError for a scheme other
      than `gs:`, and otherwise
      `scheme + "//" + os.path.join(bucket, os.path.join(path, name))`. */
  function ExportFrom(parsed: Result<GcsParts>, name: string): (r: Result<string>)
    ensures parsed.Err? ==> r == Err(parsed.error)
    ensures parsed.Ok? && parsed.value.scheme != "gs:" ==> r == Err(SchemeNotGs)
    ensures r.Ok? <==> parsed.Ok? && parsed.value.scheme == "gs:"
  {
    match parsed
    case Err(e) => Err(e)
    case Ok(p) =>
      if p.scheme != "gs:" then Err(SchemeNotGs)
      else
        Ok(p.scheme + "//" + PosixJoin(p.bucket, PosixJoin(p.path, name)))
  }

  /** The location for `name` under the directory URI `dir`, as both export
      functions compute it: the parse error, or ValueError for a scheme other
      than `gs:`, or else a `gs://` URI that ends with `name`. */
  function ExportLocation(dir: string, name: string): (r: Result<string>)
    ensures ParseGcsUri(dir).Err? ==> r == Err(ParseGcsUri(dir).error)
    ensures ParseGcsUri(dir).Ok? && ParseGcsUri(dir).value.scheme != "gs:" ==> r == Err(SchemeNotGs)
    ensures r.Ok? <==> ParseGcsUri(dir).Ok? && ParseGcsUri(dir).value.scheme == "gs:"
    ensures r.Ok? ==> StartsWith(r.value, "gs://") && EndsWith(r.value, name)
  {
    var parsed := ParseGcsUri(dir);
    var r := ExportFrom(parsed, name);
    if r.Ok? then
      LocationForm(parsed, name);
      r
    else
      r
  }

  /** Where `pipeline_export_gcs` stores the pickled pipeline. */
  function PipelineExportLocation(modelDir: string): Result<string>
  {
    ExportLocation(modelDir, ModelFile)
  }

  /** Where `report_export_gcs` stores the training report. */
  function ReportExportLocation(reportDir: string): Result<string>
  {
    ExportLocation(reportDir, ReportFile)
  }

  lemma GsLocation(joined: string, name: string)
    requires EndsWith(joined, name)
    ensures StartsWith("gs:" + "//" + joined, "gs://")
    ensures EndsWith("gs:" + "//" + joined, name)
  {
    var loc := "gs:" + "//" + joined;
    assert loc[..5] == "gs://";
    assert loc[|loc| - |name|..] == joined[|joined| - |name|..];
  }

  /** Every location returned is a `gs://` URI that ends with the exported
      file name, whatever the bucket and path. */
  lemma LocationForm(parsed: Result<GcsParts>, name: string)
    requires ExportFrom(parsed, name).Ok?
    ensures var loc := ExportFrom(parsed, name).value;
      StartsWith(loc, "gs://") && EndsWith(loc, name)
  {
    var p := parsed.value;
    GsLocation(PosixJoin(p.bucket, PosixJoin(p.path, name)), name);
  }

  /** `pipeline_export_gcs` refuses a directory that does not parse, with
      the parse error, and one whose scheme is not `gs:`, with ValueError;
      it returns a location exactly when neither happens. */
  lemma PipelineExportErrors(modelDir: string)
    ensures var parsed := ParseGcsUri(modelDir);
      && (parsed.Err? ==> PipelineExportLocation(modelDir) == Err(parsed.error))
      && (parsed.Ok? && parsed.value.scheme != "gs:" ==> PipelineExportLocation(modelDir) == Err(SchemeNotGs))
      && (PipelineExportLocation(modelDir).Ok? <==> parsed.Ok? && parsed.value.scheme == "gs:")
  {
    assert PipelineExportLocation(modelDir) == ExportFrom(ParseGcsUri(modelDir), ModelFile);
  }

  /** `report_export_gcs` refuses the same directories in the same way. */
  lemma ReportExportErrors(reportDir: string)
    ensures var parsed := ParseGcsUri(reportDir);
      && (parsed.Err? ==> ReportExportLocation(reportDir) == Err(parsed.error))
      && (parsed.Ok? && parsed.value.scheme != "gs:" ==> ReportExportLocation(reportDir) == Err(SchemeNotGs))
      && (ReportExportLocation(reportDir).Ok? <==> parsed.Ok? && parsed.value.scheme == "gs:")
  {
    assert ReportExportLocation(reportDir) == ExportFrom(ParseGcsUri(reportDir), ReportFile);
  }

  /** For `gs:` parts with a bucket and a path without a leading or
      trailing `/`, the location is `gs://bucket/name` when the path is empty
      and `gs://bucket/path/name` otherwise. */
  lemma LocationShape(p: GcsParts, name: string)
    requires p.scheme == "gs:" && p.bucket != "" && '/' !in p.bucket
    requires !StartsWith(p.path, "/") && !EndsWithChar(p.path, '/')
    requires !StartsWith(name, "/")
    ensures ExportFrom(Ok(p), name)
      == Ok("gs://" + p.bucket + "/" + (if p.path == "" then name else p.path + "/" + name))
  {
    var inner := PosixJoin(p.path, name);
    assert inner == if p.path == "" then name else p.path + "/" + name;
    assert !StartsWith(inner, "/") by {
      if p.path != "" {
        assert inner[..1] == p.path[..1];
      }
    }
    assert !EndsWithChar(p.bucket, '/') by {
      assert p.bucket[|p.bucket| - 1] in p.bucket;
    }
    assert PosixJoin(p.bucket, inner) == p.bucket + "/" + inner;
    assert "gs:" + "//" + (p.bucket + "/" + inner) == "gs://" + (p.bucket + "/" + inner);
    assert ExportFrom(Ok(p), name).value == "gs://" + (p.bucket + "/" + inner);
    assert "gs://" + (p.bucket + "/" + inner) == "gs://" + p.bucket + "/" + inner;
  }

  lemma FilePartsText(bucket: string, path: string, name: string)
    requires name != ""
    ensures GcsUriText(GcsParts("gs:", bucket, path, name))
         == "gs://" + bucket + "/" + (if path == "" then name else path + "/" + name)
  {
    assert "gs:" + "//" + bucket == "gs://" + bucket;
    if path == "" {
      assert GcsUriText(GcsParts("gs:", bucket, path, name)) == "gs://" + bucket + "" + ("/" + name);
    } else {
      assert GcsUriText(GcsParts("gs:", bucket, path, name)) == "gs://" + bucket + ("/" + path) + ("/" + name);
    }
  }

  /** The location of a file under a well-formed `gs:` directory is itself a
      well-formed URI: it parses back to the same bucket and path, with the
      exported file as its file. Any file named in the directory URI is
      dropped. */
  lemma LocationParsesBack(dir: string, name: string)
    requires ParseGcsUri(dir).Ok?
    requires var p := ParseGcsUri(dir).value;
      p.scheme == "gs:" && p.bucket != "" && !StartsWith(p.path, "/") && !EndsWithChar(p.path, '/')
    requires '/' !in name && '.' in name
    ensures ExportLocation(dir, name).Ok?
    ensures var p := ParseGcsUri(dir).value;
      ParseGcsUri(ExportLocation(dir, name).value) == Ok(GcsParts("gs:", p.bucket, p.path, name))
  {
    var p := ParseGcsUri(dir).value;
    var q := GcsParts("gs:", p.bucket, p.path, name);
    assert !StartsWith(name, "/") by {
      if |name| >= 1 { assert name[0] in name; }
    }
    LocationShape(p, name);
    assert ExportLocation(dir, name) == ExportFrom(Ok(p), name);
    FilePartsText(p.bucket, p.path, name);
    ParseGcsUriText(q);
  }

  /** Round trip through `pipeline_export_gcs`: the model lands in the
      directory's bucket and path, as `model.pkl`. */
  lemma PipelineLocationParsesBack(modelDir: string)
    requires ParseGcsUri(modelDir).Ok?
    requires var p := ParseGcsUri(modelDir).value;
      p.scheme == "gs:" && p.bucket != "" && !StartsWith(p.path, "/") && !EndsWithChar(p.path, '/')
    ensures PipelineExportLocation(modelDir).Ok?
    ensures var p := ParseGcsUri(modelDir).value;
      ParseGcsUri(PipelineExportLocation(modelDir).value) == Ok(GcsParts("gs:", p.bucket, p.path, ModelFile))
  {
    assert '/' !in ModelFile && ModelFile[5] == '.';
    LocationParsesBack(modelDir, ModelFile);
  }

  /** Round trip through `report_export_gcs`: the report lands in the
      directory's bucket and path, as `report.txt`. */
  lemma ReportLocationParsesBack(reportDir: string)
    requires ParseGcsUri(reportDir).Ok?
    requires var p := ParseGcsUri(reportDir).value;
      p.scheme == "gs:" && p.bucket != "" && !StartsWith(p.path, "/") && !EndsWithChar(p.path, '/')
    ensures ReportExportLocation(reportDir).Ok?
    ensures var p := ParseGcsUri(reportDir).value;
      ParseGcsUri(ReportExportLocation(reportDir).value) == Ok(GcsParts("gs:", p.bucket, p.path, ReportFile))
  {
    assert '/' !in ReportFile && ReportFile[6] == '.';
    LocationParsesBack(reportDir, ReportFile);
  }

  /** A path that starts with `/` (the directory URI had `//` after the
      bucket) is absolute for `os.path.join`, so the bucket is lost:
      `gs://b//x` gives `gs:///x/model.pkl`. */
  lemma AbsolutePathDropsBucket(p: GcsParts, name: string)
    requires p.scheme == "gs:" && StartsWith(p.path, "/") && !EndsWithChar(p.path, '/')
    requires !StartsWith(name, "/")
    ensures ExportFrom(Ok(p), name) == Ok("gs://" + p.path + "/" + name)
  {
    var inner := PosixJoin(p.path, name);
    assert inner == p.path + "/" + name;
    assert StartsWith(inner, "/") by {
      assert inner[..1] == p.path[..1];
    }
    assert "gs:" + "//" + inner == "gs://" + inner;
    assert ExportFrom(Ok(p), name).value == "gs://" + inner;
    assert "gs://" + (p.path + "/" + name) == "gs://" + p.path + "/" + name;
  }

  /** The returned expression with an empty bucket (`gs:///dir`):
      `os.path.join` drops the empty bucket, so the path takes its place,
      `gs://dir/model.pkl`. The program itself does not get this far with
      such a directory, since the storage client refuses a bucket without a
      name before the upload. */
  lemma EmptyBucketPromotesPath(p: GcsParts, name: string)
    requires p.scheme == "gs:" && p.bucket == "" && p.path != ""
    requires !StartsWith(p.path, "/") && !EndsWithChar(p.path, '/')
    requires !StartsWith(name, "/")
    ensures ExportFrom(Ok(p), name) == Ok("gs://" + p.path + "/" + name)
  {
    var inner := PosixJoin(p.path, name);
    assert inner == p.path + "/" + name;
    assert !StartsWith(inner, "/") by {
      assert inner[..1] == p.path[..1];
    }
    assert PosixJoin(p.bucket, inner) == inner;
    assert "gs:" + "//" + inner == "gs://" + inner;
    assert ExportFrom(Ok(p), name).value == "gs://" + inner;
    assert "gs://" + (p.path + "/" + name) == "gs://" + p.path + "/" + name;
  }
}
