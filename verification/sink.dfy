/** The output file: one line per matched page. */
module Sink {
  import opened Options
  import opened Strings
  import opened Seqs

  /** A matched page: the URL it was fetched from and its title text. */
  datatype Record = Record(url: string, title: string)

  const Separator := ", "

  /**
   * The line appended to the output file for `rec`: the URL, the separator, the title, and a
   * newline that ends it, each at a position fixed by the lengths of the fields.
   */
  function Line(rec: Record): (line: string)
    ensures |line| == |rec.url| + |Separator| + |rec.title| + 1
    ensures line[..|rec.url|] == rec.url
    ensures line[|rec.url|..|rec.url| + |Separator|] == Separator
    ensures line[|rec.url| + |Separator|..|line| - 1] == rec.title
    ensures line[|line| - 1] == '\n'
  {
    var line := rec.url + Separator + rec.title + "\n";
    assert line[..|rec.url|] == rec.url;
    assert line[|rec.url|..|rec.url| + |Separator|] == Separator;
    assert line[|rec.url| + |Separator|..|line| - 1] == rec.title;
    line
  }

  /**
   * The text asked to be appended to the output file for the records `out`, in order. This is not
   * the file itself: a failed append is ignored by its callback, and the file keeps lines from earlier runs.
   */
  function Contents(out: seq<Record>): string
    decreases |out|
  {
    if |out| == 0 then "" else Contents(out[..|out| - 1]) + Line(out[|out| - 1])
  }

  /** Appending a record adds exactly its line at the end of the file. */
  lemma ContentsAppend(out: seq<Record>, rec: Record)
    ensures Contents(out + [rec]) == Contents(out) + Line(rec)
  {
    assert (out + [rec])[..|out|] == out;
  }

  /** Removing the last record of `a + b`, for a non-empty `b`, leaves `a` and the front of `b`. */
  lemma SnocSplit(a: seq<Record>, b: seq<Record>)
    requires |b| > 0
    ensures (a + b)[..|a + b| - 1] == a + b[..|b| - 1]
    ensures (a + b)[|a + b| - 1] == b[|b| - 1]
  {
  }

  /** Concatenation of file contents is associative. */
  lemma StringAssoc(x: string, y: string, z: string)
    ensures (x + y) + z == x + (y + z)
  {
  }

  /** The text appended for two runs of records is that of the first followed by that of the second. */
  lemma {:induction false} ContentsConcat(a: seq<Record>, b: seq<Record>)
    ensures Contents(a + b) == Contents(a) + Contents(b)
    decreases |b|
  {
    if |b| == 0 {
      assert a + b == a;
    } else {
      var front, last := b[..|b| - 1], b[|b| - 1];
      ContentsConcat(a, front);
      SnocSplit(a, b);
      StringAssoc(Contents(a), Contents(front), Line(last));
    }
  }

  /** Extending the records only adds lines after the file already written. */
  lemma ContentsPrefix(a: seq<Record>, b: seq<Record>)
    requires IsPrefix(a, b)
    ensures IsPrefix(Contents(a), Contents(b))
  {
    assert b == a + b[|a|..];
    ContentsConcat(a, b[|a|..]);
    assert Contents(b)[..|Contents(a)|] == Contents(a);
  }

  /** Reads a line back: the URL is everything before the first separator. */
  function ParseLine(line: string): Option<Record> {
    if |line| == 0 || line[|line| - 1] != '\n' then None
    else
      var body := line[..|line| - 1];
      match IndexOf(body, Separator)
      case None => None
      case Some(i) => Some(Record(body[..i], body[i + |Separator|..]))
  }

  /** A line reads back as the record it was written for, whenever the URL has no separator in it. */
  lemma ParseLineOfLine(r: Record)
    requires !Includes(r.url, Separator)
    ensures ParseLine(Line(r)) == Some(r)
  {
    var line := Line(r);
    var body := line[..|line| - 1];
    assert body == r.url + Separator + r.title;
    var n := |r.url|;
    assert body[n..n + 2] == Separator;
    assert OccursAt(body, Separator, n);
    forall j: nat | j < n
      ensures !OccursAt(body, Separator, j)
    {
      if j + 2 <= n {
        assert body[j..j + 2] == r.url[j..j + 2];
        assert !OccursAt(r.url, Separator, j);
      } else {
        assert j + 1 == n && body[j + 1] == ',' && Separator[1] == ' ';
        assert body[j..j + 2][1] != Separator[1];
      }
    }
    assert IndexOf(body, Separator) == Some(n);
    assert body[..n] == r.url;
    assert body[n + 2..] == r.title;
  }

  /** Conversely, whatever reads back as a record is exactly that record's line. */
  lemma LineOfParseLine(line: string, r: Record)
    requires ParseLine(line) == Some(r)
    ensures Line(r) == line
    ensures !Includes(r.url, Separator)
  {
    var body := line[..|line| - 1];
    var i := IndexOf(body, Separator).value;
    assert body == body[..i] + body[i..i + 2] + body[i + 2..];
    assert line == body + "\n";
    forall j: nat | OccursAt(r.url, Separator, j)
      ensures false
    {
      assert body[j..j + 2] == r.url[j..j + 2];
      assert OccursAt(body, Separator, j);
    }
  }
}
