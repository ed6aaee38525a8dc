/** The string handling of `load_data_from_bq`: the `bq://` check, the
    split of `bq://project.dataset.table` into three names and the query
    text. The BigQuery clients and the query itself are not part of this
    model. */
module BqUri {
  import opened PyText
  import opened Failures

  const BqPrefix: string := "bq://"

  /** What the client is built from and what it is asked to run. */
  datatype BqRequest = BqRequest(projectId: string, dataset: string, table: string, query: string)

  const QueryHead: string := "\n    SELECT * from "
  const QueryTail: string := "\n    "

  /** The triple-quoted query template filled in: it selects every column of
      `dataset.table`, which sits between the fixed head and tail. */
  function QueryText(dataset: string, table: string): (r: string)
    ensures |r| == |QueryHead| + |dataset| + 1 + |table| + |QueryTail|
    ensures StartsWith(r, QueryHead) && EndsWith(r, QueryTail)
    ensures r[|QueryHead|..|r| - |QueryTail|] == dataset + "." + table
  {
    var r := QueryHead + dataset + "." + table + QueryTail;
    assert r[..|QueryHead|] == QueryHead;
    assert r[|QueryHead|..|r| - |QueryTail|] == dataset + "." + table;
    r
  }

  /** `load_data_from_bq` up to the query: Exception unless the URI starts
      with `bq://`, ValueError unless it splits on `.` into exactly three
      parts; the project id is the first part without its first five
      characters. */
  function LoadDataFromBq(uri: string): (r: Result<BqRequest>)
    ensures !StartsWith(uri, BqPrefix) ==> r == Err(NotBqUri)
    ensures r.Ok? ==> '.' !in r.value.projectId && '.' !in r.value.dataset && '.' !in r.value.table
    ensures r.Ok? ==> r.value.query == QueryText(r.value.dataset, r.value.table)
  {
    if !StartsWith(uri, BqPrefix) then Err(NotBqUri)
    else
      var parts := Split(uri, '.');
      if |parts| != 3 then Err(WrongPartCount(|parts|))
      else
        var projectId := DropFirst(parts[0], 5);
        assert '.' !in projectId by {
          forall i | 0 <= i < |projectId| ensures projectId[i] != '.' {
            assert projectId[i] == parts[0][i + 5];
          }
        }
        Ok(BqRequest(projectId, parts[1], parts[2], QueryText(parts[1], parts[2])))
  }

  /** The URI is accepted exactly when it starts with `bq://` and holds
      exactly two `.`; otherwise the error says which check failed. */
  lemma LoadSucceedsIff(uri: string)
    ensures LoadDataFromBq(uri).Ok? <==> StartsWith(uri, BqPrefix) && Count(uri, '.') == 2
    ensures StartsWith(uri, BqPrefix) && Count(uri, '.') != 2 ==>
      LoadDataFromBq(uri) == Err(WrongPartCount(Count(uri, '.') + 1))
  {
    SplitLength(uri, '.');
  }

  /** The first part of the split keeps the whole `bq://` prefix, since the
      prefix holds no `.`. */
  lemma {:induction false} FirstPartHasPrefix(uri: string)
    requires StartsWith(uri, BqPrefix)
    ensures StartsWith(Split(uri, '.')[0], BqPrefix)
  {
    var parts := Split(uri, '.');
    var first := parts[0];
    JoinSplit(uri, '.');
    if |parts| == 1 {
      assert first == uri;
    } else {
      assert uri == first + "." + Join(parts[1..], '.');
      assert uri[|first|] == '.';
      assert forall i :: 0 <= i < 5 ==> uri[..5][i] != '.';
      assert uri[..5] == first[..5];
    }
  }

  /** An accepted URI is exactly `bq://` + project + `.` + dataset + `.` +
      table, with no `.` inside the three names: the slice `project[5:]`
      drops precisely the prefix and nothing of the project. */
  lemma Decompose(uri: string)
    requires LoadDataFromBq(uri).Ok?
    ensures var q := LoadDataFromBq(uri).value;
      uri == BqPrefix + q.projectId + "." + q.dataset + "." + q.table
  {
    var parts := Split(uri, '.');
    var q := LoadDataFromBq(uri).value;
    JoinSplit(uri, '.');
    assert Join(parts, '.') == parts[0] + "." + (parts[1] + "." + parts[2]) by {
      assert parts[1..][1..] == [parts[2]];
      assert Join(parts[1..], '.') == parts[1] + "." + parts[2];
    }
    FirstPartHasPrefix(uri);
    assert parts[0] == BqPrefix + q.projectId;
  }

  /** Round trip: a URI written from three names free of `.` is read back
      as those names, with the query over `dataset.table`. */
  lemma ComposeThenLoad(projectId: string, dataset: string, table: string)
    requires '.' !in projectId && '.' !in dataset && '.' !in table
    ensures LoadDataFromBq(BqPrefix + projectId + "." + dataset + "." + table)
         == Ok(BqRequest(projectId, dataset, table, QueryText(dataset, table)))
  {
    var first := BqPrefix + projectId;
    var uri := BqPrefix + projectId + "." + dataset + "." + table;
    var parts := [first, dataset, table];
    assert '.' !in first by {
      forall i | 0 <= i < |first| ensures first[i] != '.' {
        if i >= 5 { assert first[i] == projectId[i - 5]; }
      }
    }
    assert Join(parts, '.') == uri by {
      assert parts[1..] == [dataset, table];
      assert parts[1..][1..] == [table];
      assert Join(parts[1..], '.') == dataset + "." + table;
    }
    SplitJoin(parts, '.');
    assert uri[..5] == BqPrefix;
    assert DropFirst(first, 5) == projectId;
  }

  /** The query names the table it reads: two queries over names free of
      `.` are equal only when they read the same dataset and table. */
  lemma QueryNamesTable(dataset: string, table: string, dataset': string, table': string)
    requires '.' !in dataset && '.' !in table && '.' !in dataset' && '.' !in table'
    requires QueryText(dataset, table) == QueryText(dataset', table')
    ensures dataset == dataset' && table == table'
  {
    var ref := dataset + "." + table;
    var ref' := dataset' + "." + table';
    assert ref == ref';
    assert Join([dataset, table], '.') == ref;
    assert Join([dataset', table'], '.') == ref';
    SplitJoin([dataset, table], '.');
    SplitJoin([dataset', table'], '.');
  }

  /** A URI without the `bq://` prefix is refused before it is split, even
      when its dots are right: `project.dataset.table`. */
  lemma MissingPrefixRefused(projectId: string, dataset: string, table: string)
    requires !StartsWith(projectId, BqPrefix)
    ensures LoadDataFromBq(projectId + "." + dataset + "." + table) == Err(NotBqUri)
  {
    var uri := projectId + "." + dataset + "." + table;
    assert !StartsWith(uri, BqPrefix) by {
      if |projectId| < 5 {
        assert uri[|projectId|] == '.';
      } else {
        assert projectId[..5] == uri[..5];
      }
    }
  }
}
