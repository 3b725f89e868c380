/** FilteredLineHandler.handleLine: a line `id<delimiter>text` is cut at the
    first occurrence of the delimiter; the text starts one character after
    that occurrence, whatever the delimiter's length. */
module FilteredLineHandler {
  import opened Wrappers
  import opened JavaStrings

  /** What handleLine stores: the sofa text and the view URI `file#id`. */
  datatype HandledLine = HandledLine(id: string, text: string, uri: string)

  /** `substring` with an index outside the string throws. */
  datatype LineError = StringIndexOutOfBounds

  /** The view URI: the file's URI, then "#", then the id. */
  function ViewUri(fileUri: string, id: string): (uri: string)
    ensures |uri| == |fileUri| + 1 + |id| && StartsWith(uri, fileUri)
    ensures uri[|fileUri|] == '#' && uri[|fileUri| + 1..] == id
  {
    fileUri + "#" + id
  }

  /** handleLine for a line read from the file whose URI is `fileUri`. It fails
      when the delimiter does not occur (`substring(0, -1)`) and when the line
      is empty (then only the empty delimiter occurs, and `substring(1)` is
      past the end). */
  function HandleLine(fileUri: string, line: string, delimiter: string): (r: Result<HandledLine, LineError>)
    ensures r.Failure? <==> !Contains(line, delimiter) || |line| == 0
    ensures r.Success? ==>
              var idx := IndexOf(line, delimiter);
              && r.value.id == line[..idx]
              && r.value.id + [line[idx]] + r.value.text == line
              && r.value.uri == ViewUri(fileUri, r.value.id)
    ensures r.Success? && |delimiter| > 0 ==> !Contains(r.value.id, delimiter)
    ensures r.Success? && |delimiter| == 1 ==> r.value.id + delimiter + r.value.text == line
    ensures r.Success? && |delimiter| > 1 ==> StartsWith(r.value.text, delimiter[1..])
  {
    var idx := IndexOf(line, delimiter);
    if idx < 0 || idx + 1 > |line| then
      assert |line| == 0 ==> OccursAt(line, delimiter, 0) ==> idx == 0;
      Failure(StringIndexOutOfBounds)
    else
      var id := line[..idx];
      var text := line[idx + 1..];
      assert line == id + [line[idx]] + text;
      FirstOccurrencePrefix(line, delimiter, idx);
      Success(HandledLine(id, text, ViewUri(fileUri, id)))
  }

  /** The prefix before the first occurrence of a non-empty pattern does not
      contain the pattern. */
  lemma FirstOccurrencePrefix(line: string, pat: string, idx: int)
    requires 0 <= idx <= |line|
    requires forall j :: 0 <= j < idx ==> !OccursAt(line, pat, j)
    ensures |pat| > 0 ==> !Contains(line[..idx], pat)
  {
    if |pat| > 0 && Contains(line[..idx], pat) {
      var j :| 0 <= j <= idx && OccursAt(line[..idx], pat, j);
      assert line[..idx][j..j + |pat|] == line[j..j + |pat|];
      assert OccursAt(line, pat, j);
    }
  }

  /** A line built as `id`, a one-character delimiter `d` not in `id`, then
      `text`, is handled back into that id and text. */
  lemma HandleLineOfParts(fileUri: string, id: string, d: char, text: string)
    requires d !in id
    ensures HandleLine(fileUri, id + [d] + text, [d]) == Success(HandledLine(id, text, ViewUri(fileUri, id)))
  {
    var line := id + [d] + text;
    assert OccursAt(line, [d], |id|);
    forall j | 0 <= j < |id|
      ensures !OccursAt(line, [d], j)
    {
      assert line[j] == id[j];
    }
    assert IndexOf(line, [d]) == |id|;
    assert line[..|id|] == id;
    assert line[|id| + 1..] == text;
  }
}
