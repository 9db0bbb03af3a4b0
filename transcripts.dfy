/**
 * The transcript written next to a recording (main.py): the first
 * alternative of every recognition result, joined by newlines. The cloud
 * response is abstracted to its results, each given as the list of its
 * alternatives' transcript strings.
 */
module Transcripts {
  import opened Wrappers

  const Newline: char := '\n'

  /**
   * `[result.alternatives[0].transcript for result in response.results]`;
   * `None` when some result has no alternative, where Python raises
   * `IndexError` and the request fails.
   */
  function FirstAlternatives(results: seq<seq<string>>): (r: Option<seq<string>>)
    ensures r.Some? <==> forall i :: 0 <= i < |results| ==> results[i] != []
    ensures r.Some? ==> (|r.value| == |results|
      && forall i :: 0 <= i < |results| ==> r.value[i] == results[i][0])
  {
    if results == [] then Some([])
    else if results[0] == [] then None
    else
      match FirstAlternatives(results[1..])
      case None => None
      case Some(rest) => Some([results[0][0]] + rest)
  }

  /** `"\n".join(lines)`. */
  function Join(lines: seq<string>): string {
    if lines == [] then ""
    else if |lines| == 1 then lines[0]
    else lines[0] + [Newline] + Join(lines[1..])
  }

  /** `s.split("\n")`: the pieces between newlines; always at least one. */
  function Split(s: string): (r: seq<string>)
    ensures |r| >= 1
  {
    if s == [] then [""]
    else
      var rest := Split(s[1..]);
      if s[0] == Newline then [""] + rest else [[s[0]] + rest[0]] + rest[1..]
  }

  predicate NoNewline(line: string) {
    Newline !in line
  }

  /** The transcript text, or `None` when the response has a result without alternatives. */
  function Transcript(results: seq<seq<string>>): Option<string> {
    match FirstAlternatives(results)
    case None => None
    case Some(lines) => Some(Join(lines))
  }

  lemma {:induction false} SplitPrefix(line: string, s: string)
    requires NoNewline(line)
    ensures Split(line + s) == [line + Split(s)[0]] + Split(s)[1..]
    decreases |line|
  {
    if line != [] {
      assert (line + s)[1..] == line[1..] + s;
      assert (line + s)[0] == line[0];
      SplitPrefix(line[1..], s);
      assert [line[0]] + (line[1..] + Split(s)[0]) == line + Split(s)[0];
    } else {
      var r := Split(s);
      assert line + s == s && line + r[0] == r[0];
      assert r == [r[0]] + r[1..];
    }
  }

  /** Splitting the joined lines at newlines gives the lines back, when none of them holds a newline. */
  lemma {:induction false} SplitJoin(lines: seq<string>)
    requires lines != []
    requires forall i :: 0 <= i < |lines| ==> NoNewline(lines[i])
    ensures Split(Join(lines)) == lines
  {
    if |lines| == 1 {
      SplitPrefix(lines[0], "");
      assert lines[0] + "" == lines[0];
    } else {
      var tail := lines[1..];
      SplitJoin(tail);
      var s := [Newline] + Join(tail);
      SplitPrefix(lines[0], s);
      assert lines[0] + [Newline] + Join(tail) == lines[0] + s;
      assert s[1..] == Join(tail);
      assert Split(s) == [""] + tail;
      assert lines[0] + "" == lines[0];
      assert lines == [lines[0]] + tail;
    }
  }

  /** Joining the pieces of a split gives the text back: `Split` loses nothing. */
  lemma {:induction false} JoinSplit(s: string)
    ensures Join(Split(s)) == s
    decreases |s|
  {
    if s != [] {
      var rest := Split(s[1..]);
      JoinSplit(s[1..]);
      if s[0] == Newline {
        assert Split(s) == [""] + rest;
        assert Split(s)[1..] == rest;
      } else if |rest| == 1 {
        assert Split(s) == [[s[0]] + rest[0]];
      } else {
        assert Split(s)[1..] == rest[1..];
        assert Join(rest) == rest[0] + [Newline] + Join(rest[1..]);
      }
    }
  }

  /** No piece of a split holds a newline. */
  lemma {:induction false} SplitNoNewline(s: string)
    ensures forall i :: 0 <= i < |Split(s)| ==> NoNewline(Split(s)[i])
    decreases |s|
  {
    if s != [] {
      var rest := Split(s[1..]);
      SplitNoNewline(s[1..]);
      if s[0] != Newline {
        assert NoNewline(rest[0]);
        assert Newline !in [s[0]] + rest[0];
      }
    }
  }

  /**
   * The transcript exists exactly when every result has an alternative; its
   * lines are then the first alternatives, one per result, in result order.
   */
  lemma TranscriptLines(results: seq<seq<string>>)
    ensures Transcript(results).Some? <==> forall i :: 0 <= i < |results| ==> results[i] != []
    ensures Transcript(results).Some? && results != []
      && (forall i :: 0 <= i < |results| ==> NoNewline(results[i][0]))
      ==> var lines := Split(Transcript(results).value);
          |lines| == |results| && forall i :: 0 <= i < |results| ==> lines[i] == results[i][0]
  {
    var firsts := FirstAlternatives(results);
    if firsts.Some? && results != [] && forall i :: 0 <= i < |results| ==> NoNewline(results[i][0]) {
      SplitJoin(firsts.value);
    }
  }

  /** No results give an empty transcript; one result gives its first alternative alone. */
  lemma TranscriptExamples(first: string, others: seq<string>)
    ensures Transcript([]) == Some("")
    ensures Transcript([[first] + others]) == Some(first)
    ensures Transcript([[first], []]) == None
  {
    assert [[first], []][1] == [];
  }
}
