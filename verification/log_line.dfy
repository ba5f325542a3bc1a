/**
 One line of `git log --pretty=format:%H %ct %an %s`, split with `split(' ', 3)` and unpacked
 into four names. Unpacking raises `ValueError` when the split yields fewer than four pieces;
 that outcome is `None` here.
 */
module LogLine {
  import opened Wrappers
  import opened Strings

  /** The four unpacked fields: commit hash, commit time (epoch seconds, as text), author, subject. */
  datatype LogFields = LogFields(hash: string, epoch: string, author: string, subject: string)

  function FieldList(f: LogFields): seq<string> {
    [f.hash, f.epoch, f.author, f.subject]
  }

  /** The joined fields, written out. */
  lemma JoinFields(f: LogFields)
    ensures Join(FieldList(f), " ") == f.hash + " " + f.epoch + " " + f.author + " " + f.subject
  {
    var l := FieldList(f);
    assert l[1..] == [f.epoch, f.author, f.subject];
    assert l[1..][1..] == [f.author, f.subject];
    assert l[1..][1..][1..] == [f.subject];
    assert Join([f.author, f.subject], " ") == f.author + " " + f.subject;
    assert Join([f.epoch, f.author, f.subject], " ") == f.epoch + " " + (f.author + " " + f.subject);
    assert Join(l, " ") == f.hash + " " + (f.epoch + " " + (f.author + " " + f.subject));
  }

  /**
   Unpacking a log line into hash, time text, author and message: the line is cut at its first
   three spaces, and a line with fewer than three spaces raises (`None`).
   */
  function ParseLogLine(line: string): (r: Option<LogFields>)
    ensures r.Some? <==> CountChar(line, ' ') >= 3
    ensures r.Some? ==> Join(FieldList(r.value), " ") == line
    ensures r.Some? ==> ' ' !in r.value.hash && ' ' !in r.value.epoch && ' ' !in r.value.author
  {
    var parts := SplitN(line, " ", 3);
    SplitCountChar(line, ' ', 3);
    if |parts| == 4 then
      FrontFieldsHaveNoSpace(parts);
      var f := LogFields(parts[0], parts[1], parts[2], parts[3]);
      assert FieldList(f) == parts;
      Some(f)
    else
      None
  }

  lemma FrontFieldsHaveNoSpace(parts: seq<string>)
    requires |parts| == 4 && forall i :: 0 <= i < 3 ==> FirstSepAtEnd(parts[i], " ")
    ensures ' ' !in parts[0] && ' ' !in parts[1] && ' ' !in parts[2]
  {
    FirstSepAtEndChar(parts[0], ' ');
    FirstSepAtEndChar(parts[1], ' ');
    FirstSepAtEndChar(parts[2], ' ');
  }

  /**
   Parsing inverts formatting: a line produced by joining four fields, the first three free of
   spaces, parses back to exactly those fields.
   */
  lemma FormatThenParse(f: LogFields)
    requires ' ' !in f.hash && ' ' !in f.epoch && ' ' !in f.author
    ensures ParseLogLine(Join(FieldList(f), " ")) == Some(f)
  {
    FirstSepAtEndChar(f.hash, ' ');
    FirstSepAtEndChar(f.epoch, ' ');
    FirstSepAtEndChar(f.author, ' ');
    SplitJoin(FieldList(f), " ");
  }

  /**
   Only the subject may contain spaces: when the author name has a space, its words after the
   first are moved into the subject.
   */
  lemma AuthorSpill(hash: string, epoch: string, first: string, rest: string, subject: string)
    requires ' ' !in hash && ' ' !in epoch && ' ' !in first
    ensures ParseLogLine(hash + " " + epoch + " " + first + " " + rest + " " + subject)
         == Some(LogFields(hash, epoch, first, rest + " " + subject))
  {
    var f := LogFields(hash, epoch, first, rest + " " + subject);
    FormatThenParse(f);
    JoinFields(f);
    var front := hash + " " + epoch + " " + first + " ";
    ConcatAssoc(rest, " ", subject);
    ConcatAssoc(front, rest + " ", subject);
    ConcatAssoc(front, rest, " ");
  }
}
