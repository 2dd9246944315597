/** How both path features read a file name out of an image URL such as
    `/view?filename=foo.png&type=output`: `src.split('?')[1]`, then
    `new URLSearchParams(query).get('filename')`, with every falsy value treated
    as "no file name". */
module Urls {
  import opened Optional
  import opened Strings

  const FilenameKey := "filename"

  /** An `<img>` element as the features read it: its `src` attribute (absent when
      `getAttribute` returns null) and its intrinsic pixel size. */
  datatype Image = Image(src: Option<string>, naturalWidth: nat, naturalHeight: nat)

  /** `src.split('?')[1]`: the text between the first '?' and the next one (or the
      end), or nothing when `src` has no '?'. */
  function QuerySegment(src: string): (r: Option<string>)
    ensures r.None? <==> '?' !in src
    ensures r.Some? ==> '?' !in r.value
  {
    var parts := Split(src, '?');
    if |parts| > 1 then Some(parts[1]) else None
  }

  /** The query segment is exactly what lies between the first '?' and the next. */
  lemma QuerySegmentOf(path: string, query: string, tail: string)
    requires '?' !in path && '?' !in query
    requires tail == [] || tail[0] == '?'
    ensures QuerySegment(path + "?" + query + tail) == Some(query)
  {
    var after := query + tail;
    var src := path + "?" + query + tail;
    assert src == path + ['?'] + after;
    SplitCons(path, '?', after);
    SplitHead(query, '?', tail);
  }

  /** Name and value of one `name=value` pair; a pair without '=' has an empty value. */
  function NameValue(pair: string): (string, string) {
    match IndexOf(pair, '=')
    case None => (pair, "")
    case Some(i) => (pair[..i], pair[i + 1..])
  }

  predicate Names(pair: string, name: string) {
    pair != "" && NameValue(pair).0 == name
  }

  /** The value of the first pair called `name`; empty pairs are skipped. */
  function Lookup(pairs: seq<string>, name: string): (r: Option<string>)
    ensures r.None? <==> forall k :: 0 <= k < |pairs| ==> !Names(pairs[k], name)
    ensures r.Some? ==> exists k :: 0 <= k < |pairs| && Names(pairs[k], name)
                          && NameValue(pairs[k]).1 == r.value
                          && forall j :: 0 <= j < k ==> !Names(pairs[j], name)
    decreases |pairs|
  {
    if |pairs| == 0 then None
    else if Names(pairs[0], name) then
      assert Names(pairs[0], name);
      Some(NameValue(pairs[0]).1)
    else
      var r := Lookup(pairs[1..], name);
      if r.Some? then
        var k :| 0 <= k < |pairs[1..]| && Names(pairs[1..][k], name)
                 && NameValue(pairs[1..][k]).1 == r.value
                 && forall j :: 0 <= j < k ==> !Names(pairs[1..][j], name);
        assert Names(pairs[k + 1], name);
        r
      else
        r
  }

  /** `new URLSearchParams(query).get(name)`, without percent- or '+'-decoding. */
  function GetParam(query: string, name: string): Option<string> {
    Lookup(Split(query, '&'), name)
  }

  /** The file name an image URL names: absent when `src` is missing or empty, has
      no (or an empty) query segment, or has no non-empty `filename` parameter. */
  function FilenameFromSrc(src: Option<string>): (r: Option<string>)
    ensures r.Some? ==> r.value != "" && '?' !in r.value && '&' !in r.value
    ensures r.Some? ==> Truthy(src) && Truthy(QuerySegment(src.value))
                        && GetParam(QuerySegment(src.value).value, FilenameKey) == r
    ensures (Truthy(src) && Truthy(QuerySegment(src.value))
             && Truthy(GetParam(QuerySegment(src.value).value, FilenameKey))) ==> r.Some?
  {
    if !Truthy(src) then None
    else
      var query := QuerySegment(src.value);
      if !Truthy(query) then None
      else
        var f := GetParam(query.value, FilenameKey);
        if Truthy(f) then
          FilenameCharacters(query.value, f.value);
          f
        else None
  }

  lemma FilenameCharacters(query: string, f: string)
    requires '?' !in query
    requires GetParam(query, FilenameKey) == Some(f)
    ensures '?' !in f && '&' !in f
  {
    var pairs := Split(query, '&');
    var k :| 0 <= k < |pairs| && Names(pairs[k], FilenameKey) && NameValue(pairs[k]).1 == f;
    JoinSplit(query, '&');
    PieceOfJoin(pairs, '&', k, '?');
    match IndexOf(pairs[k], '=')
    case None =>
    case Some(i) =>
      assert f == pairs[k][i + 1..];
      assert forall c :: c in f ==> c in pairs[k];
  }

  /** A character absent from a joined string is absent from each piece. */
  lemma {:induction false} PieceOfJoin(parts: seq<string>, sep: char, k: nat, c: char)
    requires |parts| >= 1 && k < |parts|
    requires c !in Join(parts, sep)
    ensures c !in parts[k]
    decreases |parts|
  {
    if |parts| > 1 {
      assert Join(parts, sep) == parts[0] + [sep] + Join(parts[1..], sep);
      if k > 0 {
        PieceOfJoin(parts[1..], sep, k - 1, c);
      }
    }
  }

  /** `name=value` splits at its first '='. */
  lemma NameValueOf(name: string, value: string)
    requires '=' !in name
    ensures NameValue(name + "=" + value) == (name, value)
  {
    var pair := name + "=" + value;
    assert pair == name + ['='] + value;
    IndexOfAfter(name, '=', value);
    assert pair[..|name|] == name;
    assert pair[|name| + 1..] == value;
  }

  /** A query that starts with `filename=<f>` has `f` as its file name, whatever
      follows the next '&' (a later `filename` pair included). */
  lemma FirstFilenameParam(f: string, rest: string)
    requires '&' !in f
    requires rest == [] || rest[0] == '&'
    ensures GetParam(FilenameKey + "=" + f + rest, FilenameKey) == Some(f)
  {
    var pair := FilenameKey + "=" + f;
    assert '&' !in pair;
    NameValueOf(FilenameKey, f);
    assert pair + rest == FilenameKey + "=" + f + rest;
    SplitHead(pair, '&', rest);
    assert Names(pair, FilenameKey);
  }

  /** A URL whose query starts with `filename=<f>` names `f`, whatever follows the
      next '&' and whatever follows a second '?'. */
  lemma FilenameOfUrl(path: string, f: string, rest: string, tail: string)
    requires '?' !in path && '?' !in f && '?' !in rest
    requires f != "" && '&' !in f
    requires rest == [] || rest[0] == '&'
    requires tail == [] || tail[0] == '?'
    ensures FilenameFromSrc(Some(path + "?" + FilenameKey + "=" + f + rest + tail)) == Some(f)
  {
    var query := FilenameKey + "=" + f + rest;
    assert path + "?" + FilenameKey + "=" + f + rest + tail == path + "?" + query + tail;
    assert '?' !in query;
    QuerySegmentOf(path, query, tail);
    FirstFilenameParam(f, rest);
  }
}
