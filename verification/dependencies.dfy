/**
 The `dependencies` dictionary built by `get_commit_dependencies`: commit hash to a record of
 changed files, author, formatted time and message, in insertion order. A Python dict is
 modelled as a sequence of entries that keeps each key's first-insertion position.
 */
module Dependencies {
  import opened Wrappers
  import opened Strings
  import opened LogLine

  /** The value stored under one commit hash: `{"files", "author", "time", "message"}`. */
  datatype CommitRecord = CommitRecord(files: seq<string>, author: string, time: string, message: string)

  datatype Entry = Entry(hash: string, record: CommitRecord)

  /** An insertion-ordered dictionary from commit hash to record. */
  type Deps = seq<Entry>

  /** The hashes of the dictionary, in insertion order. */
  function Keys(d: Deps): (ks: seq<string>)
    ensures |ks| == |d| && forall i :: 0 <= i < |d| ==> ks[i] == d[i].hash
  {
    seq(|d|, i requires 0 <= i < |d| => d[i].hash)
  }

  /** No element occurs twice. */
  predicate Distinct(xs: seq<string>) {
    forall i, j :: 0 <= i < j < |xs| ==> xs[i] != xs[j]
  }

  /** No hash is stored twice: the invariant every Python dict keeps. */
  predicate UniqueKeys(d: Deps) {
    Distinct(Keys(d))
  }

  /** A hash is a key iff it is the first entry's or a key of the rest. */
  lemma KeysCons(d: Deps, k: string)
    requires |d| > 0
    ensures k in Keys(d) <==> k == d[0].hash || k in Keys(d[1..])
  {
    assert Keys(d) == [d[0].hash] + Keys(d[1..]);
  }

  lemma UniqueTail(d: Deps)
    requires |d| > 0 && UniqueKeys(d)
    ensures UniqueKeys(d[1..])
  {
    forall i, j | 0 <= i < j < |d[1..]|
      ensures Keys(d[1..])[i] != Keys(d[1..])[j]
    {
      assert Keys(d)[i + 1] != Keys(d)[j + 1];
    }
  }

  /**
   Reading the dictionary at hash `k`: the record stored under the first entry with that hash,
   or `None` where Python raises `KeyError` because `k` is not a key.
   */
  function Lookup(d: Deps, k: string): (r: Option<CommitRecord>)
    ensures r.None? <==> k !in Keys(d)
    ensures r.Some? ==> exists i :: 0 <= i < |d| && d[i] == Entry(k, r.value)
    decreases |d|
  {
    if |d| == 0 then None
    else
      KeysCons(d, k);
      if d[0].hash == k then
        assert d[0] == Entry(k, d[0].record);
        Some(d[0].record)
      else
        var r := Lookup(d[1..], k);
        assert r.Some? ==> exists i :: 0 <= i < |d| && d[i] == Entry(k, r.value) by {
          if r.Some? {
            var i :| 0 <= i < |d[1..]| && d[1..][i] == Entry(k, r.value);
            assert d[i + 1] == Entry(k, r.value);
          }
        }
        r
  }

  /** In a dictionary, reading the hash of the entry at position `i` gives that entry's record. */
  lemma {:induction false} LookupAt(d: Deps, i: nat)
    requires UniqueKeys(d) && i < |d|
    ensures Lookup(d, d[i].hash) == Some(d[i].record)
    decreases |d|
  {
    if i > 0 {
      assert Keys(d)[0] != Keys(d)[i];
      UniqueTail(d);
      assert d[1..][i - 1] == d[i];
      LookupAt(d[1..], i - 1);
    }
  }

  /** The position of the first entry with hash `k`, if any. */
  function IndexOf(d: Deps, k: string): (r: Option<nat>)
    ensures r.None? <==> k !in Keys(d)
    ensures r.Some? ==> r.value < |d| && d[r.value].hash == k
    ensures r.Some? ==> forall j :: 0 <= j < r.value ==> d[j].hash != k
    decreases |d|
  {
    if |d| == 0 then None
    else
      KeysCons(d, k);
      if d[0].hash == k then Some(0)
      else
        match IndexOf(d[1..], k)
        case None => None
        case Some(i) =>
          FirstAfterHead(d, k, i);
          Some(i + 1)
  }

  /** A first position `i` in the rest, after a head with another hash, is first position `i + 1`. */
  lemma FirstAfterHead(d: Deps, k: string, i: nat)
    requires |d| > 0 && d[0].hash != k && i < |d| - 1
    requires d[1..][i].hash == k && forall j :: 0 <= j < i ==> d[1..][j].hash != k
    ensures d[i + 1].hash == k && forall j :: 0 <= j < i + 1 ==> d[j].hash != k
  {
    forall j | 1 <= j < i + 1
      ensures d[j].hash != k
    {
      assert d[j] == d[1..][j - 1];
    }
  }

  /**
   Assigning record `v` to hash `k`: a hash already present keeps its position and gets the new record; a
   new hash is appended at the end; every position keeps its hash and no entry with another
   hash changes.
   */
  function Upsert(d: Deps, k: string, v: CommitRecord): (r: Deps)
    ensures |r| == if k in Keys(d) then |d| else |d| + 1
    ensures forall i :: 0 <= i < |d| ==> r[i].hash == d[i].hash
    ensures forall i :: 0 <= i < |d| && d[i].hash != k ==> r[i] == d[i]
    ensures k !in Keys(d) ==> r == d + [Entry(k, v)]
  {
    match IndexOf(d, k)
    case Some(i) => d[i := Entry(k, v)]
    case None => d + [Entry(k, v)]
  }

  /** Assignment keeps the key order, appending a new hash at the end, and keeps keys unique. */
  lemma UpsertKeys(d: Deps, k: string, v: CommitRecord)
    ensures Keys(Upsert(d, k, v)) == if k in Keys(d) then Keys(d) else Keys(d) + [k]
    ensures UniqueKeys(d) ==> UniqueKeys(Upsert(d, k, v))
  {
    var r := Upsert(d, k, v);
    if k !in Keys(d) {
      assert Keys(r) == Keys(d) + [k];
    } else {
      assert Keys(r) == Keys(d);
    }
  }

  /** How assignment looks from the first entry: replace it, or assign into the rest. */
  lemma UpsertCons(d: Deps, k: string, v: CommitRecord)
    requires |d| > 0
    ensures Upsert(d, k, v) == if d[0].hash == k then [Entry(k, v)] + d[1..] else [d[0]] + Upsert(d[1..], k, v)
  {
    if d[0].hash == k {
      UpsertConsHead(d, k, v);
    } else {
      UpsertConsTail(d, k, v);
    }
  }

  lemma UpsertConsHead(d: Deps, k: string, v: CommitRecord)
    requires |d| > 0 && d[0].hash == k
    ensures Upsert(d, k, v) == [Entry(k, v)] + d[1..]
  {
    assert IndexOf(d, k) == Some(0);
    assert d[0 := Entry(k, v)] == [Entry(k, v)] + d[1..];
  }

  lemma UpsertConsTail(d: Deps, k: string, v: CommitRecord)
    requires |d| > 0 && d[0].hash != k
    ensures Upsert(d, k, v) == [d[0]] + Upsert(d[1..], k, v)
  {
    var e := Entry(k, v);
    match IndexOf(d[1..], k)
    case None =>
      assert IndexOf(d, k).None?;
      AppendCons(d, e);
    case Some(i) =>
      assert IndexOf(d, k) == Some(i + 1);
      UpdateCons(d, i, e);
  }

  lemma AppendCons(d: Deps, e: Entry)
    requires |d| > 0
    ensures d + [e] == [d[0]] + (d[1..] + [e])
  {
    assert d == [d[0]] + d[1..];
  }

  lemma UpdateCons(d: Deps, i: nat, e: Entry)
    requires i + 1 < |d|
    ensures d[i + 1 := e] == [d[0]] + d[1..][i := e]
  {
    assert d == [d[0]] + d[1..];
  }

  /** Assigning a hash already present replaces the record at that hash's position. */
  lemma UpsertInPlace(d: Deps, k: string, v: CommitRecord, i: nat)
    requires UniqueKeys(d) && i < |d| && d[i].hash == k
    ensures Upsert(d, k, v)[i] == Entry(k, v)
  {
    assert k == Keys(d)[i];
    var j := IndexOf(d, k).value;
    assert Keys(d)[j] == Keys(d)[i];
  }

  /** After assigning `v` to `k`, reading `k` gives `v` and reading any other hash is unaffected. */
  lemma {:induction false} UpsertLookup(d: Deps, k: string, v: CommitRecord)
    ensures Lookup(Upsert(d, k, v), k) == Some(v)
    ensures forall k' :: k' != k ==> Lookup(Upsert(d, k, v), k') == Lookup(d, k')
    decreases |d|
  {
    if |d| > 0 {
      var e := if d[0].hash == k then Entry(k, v) else d[0];
      var rest := if d[0].hash == k then d[1..] else Upsert(d[1..], k, v);
      if d[0].hash == k {
        UpsertConsHead(d, k, v);
      } else {
        UpsertConsTail(d, k, v);
        UpsertLookup(d[1..], k, v);
      }
      LookupFront(e, rest, k);
      forall k' | k' != k
        ensures Lookup(Upsert(d, k, v), k') == Lookup(d, k')
      {
        LookupFront(e, rest, k');
      }
    }
  }

  /** Reading a dictionary whose first entry is `e`. */
  lemma LookupFront(e: Entry, rest: Deps, k: string)
    ensures Lookup([e] + rest, k) == if e.hash == k then Some(e.record) else Lookup(rest, k)
  {
    assert ([e] + rest)[1..] == rest;
  }

  /** The dictionary as a map; on a repeated hash the first entry wins, as in `Lookup`. */
  function ToMap(d: Deps): map<string, CommitRecord>
    decreases |d|
  {
    if |d| == 0 then map[] else ToMap(d[1..])[d[0].hash := d[0].record]
  }

  lemma ToMapCons(e: Entry, rest: Deps)
    ensures ToMap([e] + rest) == ToMap(rest)[e.hash := e.record]
  {
    assert ([e] + rest)[1..] == rest;
  }

  /** Assigning the hash of the first entry. */
  lemma UpsertHeadIsMapUpdate(d: Deps, v: CommitRecord)
    requires |d| > 0
    ensures ToMap(Upsert(d, d[0].hash, v)) == ToMap(d)[d[0].hash := v]
  {
    var k := d[0].hash;
    var m := ToMap(d[1..]);
    UpsertConsHead(d, k, v);
    ToMapCons(Entry(k, v), d[1..]);
    Overwrite(m, k, d[0].record, v);
  }

  lemma Overwrite(m: map<string, CommitRecord>, k: string, a: CommitRecord, b: CommitRecord)
    ensures m[k := a][k := b] == m[k := b]
  {
  }

  lemma Commute(m: map<string, CommitRecord>, k: string, a: CommitRecord, h: string, b: CommitRecord)
    requires k != h
    ensures m[k := a][h := b] == m[h := b][k := a]
  {
  }

  /** `Upsert` is map update: the ordered model agrees with Python's dictionary assignment. */
  lemma {:induction false} UpsertIsMapUpdate(d: Deps, k: string, v: CommitRecord)
    ensures ToMap(Upsert(d, k, v)) == ToMap(d)[k := v]
    decreases |d|
  {
    if |d| > 0 {
      if d[0].hash == k {
        UpsertHeadIsMapUpdate(d, v);
      } else {
        var tail := ToMap(d[1..]);
        var h, r := d[0].hash, d[0].record;
        assert ToMap(Upsert(d, k, v)) == ToMap(Upsert(d[1..], k, v))[h := r] by {
          UpsertCons(d, k, v);
          ToMapCons(d[0], Upsert(d[1..], k, v));
        }
        UpsertIsMapUpdate(d[1..], k, v);
        Commute(tail, k, v, h, r);
      }
    }
  }

  /** The distinct elements of `xs`, in order of first occurrence. */
  function Dedup(xs: seq<string>): (r: seq<string>)
    ensures forall x :: x in r <==> x in xs
    ensures Distinct(r)
    decreases |xs|
  {
    if |xs| == 0 then []
    else
      var init := xs[..|xs| - 1];
      var p := Dedup(init);
      assert xs == init + [xs[|xs| - 1]];
      if xs[|xs| - 1] in p then p else p + [xs[|xs| - 1]]
  }

  /** The dictionary after assigning every entry of `es` in order, from an empty `{}`. */
  function Assemble(es: seq<Entry>): (d: Deps)
    ensures UniqueKeys(d)
    ensures Keys(d) == Dedup(Keys(es))
    decreases |es|
  {
    if |es| == 0 then []
    else
      var init := es[..|es| - 1];
      var last := es[|es| - 1];
      assert Keys(es) == Keys(init) + [last.hash];
      assert Keys(es)[..|es| - 1] == Keys(init);
      UpsertKeys(Assemble(init), last.hash, last.record);
      Upsert(Assemble(init), last.hash, last.record)
  }

  /** Python's dictionary semantics as a map: each assignment overwrites the key's value. */
  function AssignAll(es: seq<Entry>): map<string, CommitRecord>
    decreases |es|
  {
    if |es| == 0 then map[]
    else AssignAll(es[..|es| - 1])[es[|es| - 1].hash := es[|es| - 1].record]
  }

  /** The ordered dictionary holds exactly the key/value pairs of repeated map assignment. */
  lemma {:induction false} AssembleIsAssignAll(es: seq<Entry>)
    ensures ToMap(Assemble(es)) == AssignAll(es)
    decreases |es|
  {
    if |es| > 0 {
      var init := es[..|es| - 1];
      AssembleIsAssignAll(init);
      UpsertIsMapUpdate(Assemble(init), es[|es| - 1].hash, es[|es| - 1].record);
    }
  }

  /** A repeated hash: the record of its last assignment is the one stored. */
  lemma {:induction false} LastWriteWins(es: seq<Entry>, i: nat)
    requires i < |es|
    requires forall j :: i < j < |es| ==> es[j].hash != es[i].hash
    ensures Lookup(Assemble(es), es[i].hash) == Some(es[i].record)
    decreases |es|
  {
    var init := es[..|es| - 1];
    UpsertLookup(Assemble(init), es[|es| - 1].hash, es[|es| - 1].record);
    if i < |es| - 1 {
      assert init[i] == es[i];
      LastWriteWins(init, i);
    }
  }

  /**
   One loop iteration of `get_commit_dependencies` before the assignment: unpack the line,
   convert the time and ask for the changed files. `formatTime` stands for reading the time
   text as epoch seconds and formatting it as a local date and time (`None` where that
   raises), and `filesOf` for the file names `git diff` lists for the commit.
   */
  function ParseEntry(line: string, filesOf: string -> seq<string>, formatTime: string -> Option<string>): (r: Option<Entry>)
    ensures r.None? <==> CountChar(line, ' ') < 3 || formatTime(ParseLogLine(line).value.epoch).None?
    ensures r.Some? ==> ' ' !in r.value.hash && ' ' !in r.value.record.author
    ensures r.Some? ==> r.value.record.files == filesOf(r.value.hash)
    ensures r.Some? ==> exists epoch :: (' ' !in epoch && formatTime(epoch) == Some(r.value.record.time) &&
                                          Join([r.value.hash, epoch, r.value.record.author, r.value.record.message], " ") == line)
  {
    match ParseLogLine(line)
    case None => None
    case Some(f) =>
      match formatTime(f.epoch)
      case None => None
      case Some(t) =>
        assert FieldList(f) == [f.hash, f.epoch, f.author, f.subject];
        Some(Entry(f.hash, CommitRecord(filesOf(f.hash), f.author, t, f.subject)))
  }

  /**
   A line in the `git log` format whose hash, time text and author hold no space yields the
   entry with exactly those fields, the converted time and the commit's changed files.
   */
  lemma ParseFormattedLine(hash: string, epoch: string, author: string, subject: string,
                           filesOf: string -> seq<string>, formatTime: string -> Option<string>)
    requires ' ' !in hash && ' ' !in epoch && ' ' !in author
    requires formatTime(epoch).Some?
    ensures ParseEntry(Join([hash, epoch, author, subject], " "), filesOf, formatTime)
         == Some(Entry(hash, CommitRecord(filesOf(hash), author, formatTime(epoch).value, subject)))
  {
    var f := LogFields(hash, epoch, author, subject);
    assert FieldList(f) == [hash, epoch, author, subject];
    FormatThenParse(f);
  }

  /** `f` applied to every element in order; `None` as soon as one application fails. */
  function TryAll<T>(xs: seq<string>, f: string -> Option<T>): (r: Option<seq<T>>)
    ensures r.Some? <==> forall i :: 0 <= i < |xs| ==> f(xs[i]).Some?
    ensures r.Some? ==> |r.value| == |xs|
    ensures r.Some? ==> forall i :: 0 <= i < |xs| ==> Some(r.value[i]) == f(xs[i])
    decreases |xs|
  {
    if |xs| == 0 then Some([])
    else
      var init := xs[..|xs| - 1];
      var prev := TryAll(init, f);
      var last := f(xs[|xs| - 1]);
      assert forall i :: 0 <= i < |init| ==> init[i] == xs[i];
      if prev.None? || last.None? then None
      else Some(prev.value + [last.value])
  }

  /** The entries of lines that all parse, in order. */
  function Entries(lines: seq<string>, filesOf: string -> seq<string>, formatTime: string -> Option<string>): (es: seq<Entry>)
    requires forall i :: 0 <= i < |lines| ==> ParseEntry(lines[i], filesOf, formatTime).Some?
    ensures |es| == |lines|
  {
    seq(|lines|, i requires 0 <= i < |lines| => ParseEntry(lines[i], filesOf, formatTime).value)
  }

  /**
   `get_commit_dependencies` after `git log` has produced `lines`: `None` when some line
   raises; otherwise every line's entry assigned in order, so each hash appears once, in order
   of first appearance (and, by `LastWriteWins`, with the record of its last line).
   */
  function GetCommitDependencies(lines: seq<string>, filesOf: string -> seq<string>, formatTime: string -> Option<string>): (r: Option<Deps>)
    ensures r.Some? <==> forall i :: 0 <= i < |lines| ==> ParseEntry(lines[i], filesOf, formatTime).Some?
    ensures r.Some? ==> r.value == Assemble(Entries(lines, filesOf, formatTime))
    ensures r.Some? ==> UniqueKeys(r.value)
    ensures r.Some? ==> Keys(r.value) == Dedup(Keys(Entries(lines, filesOf, formatTime)))
  {
    var parse := (line: string) => ParseEntry(line, filesOf, formatTime);
    match TryAll(lines, parse)
    case None => None
    case Some(es) =>
      assert es == Entries(lines, filesOf, formatTime);
      Some(Assemble(es))
  }
}
