/** Word extraction (p1/wl.cpp:40-50, 397-446): a line's words are its maximal runs of
    letters, digits and apostrophes, in lower case. */
module Tokenizer {
  /** isalnum in the "C" locale, or an apostrophe. */
  predicate IsWordChar(c: char) {
    'a' <= c <= 'z' || 'A' <= c <= 'Z' || '0' <= c <= '9' || c == '\''
  }

  function ToLowerChar(c: char): char {
    if 'A' <= c <= 'Z' then c - 'A' + 'a' else c
  }

  /** The characters words are made of, by their codes: the digits, both alphabets and the
      apostrophe. */
  ghost predicate Wordly(c: char) {
    var x := c as int;
    48 <= x <= 57 || 65 <= x <= 90 || 97 <= x <= 122 || x == 39
  }

  /** d is c with an upper-case letter replaced by the lower-case one, 32 codes above. */
  ghost predicate Lowered(c: char, d: char) {
    d as int == c as int + if 65 <= c as int <= 90 then 32 else 0
  }

  ghost predicate IsUpper(c: char) {
    65 <= c as int <= 90
  }

  /** A word spells a text in lower case. */
  ghost predicate Spells(text: string, word: string) {
    |word| == |text| && forall i :: 0 <= i < |text| ==> Lowered(text[i], word[i]) && !IsUpper(word[i])
  }

  lemma CharLaws(c: char)
    ensures IsWordChar(c) <==> Wordly(c)
    ensures Lowered(c, ToLowerChar(c)) && !IsUpper(ToLowerChar(c))
  {
  }

  ghost function Lower(s: string): (r: string)
    ensures |r| == |s| && forall i :: 0 <= i < |s| ==> r[i] == ToLowerChar(s[i])
  {
    seq(|s|, i requires 0 <= i < |s| => ToLowerChar(s[i]))
  }

  method ToLower(s: string) returns (copy: string)
    ensures copy == Lower(s)
    ensures Spells(s, copy)
  {
    copy := "";
    var i := 0;
    while i < |s|
      invariant i <= |s| && |copy| == i && forall j :: 0 <= j < i ==> copy[j] == ToLowerChar(s[j])
    {
      copy := copy + [ToLowerChar(s[i])];
      i := i + 1;
    }
    LowerIs(s);
  }

  lemma LowerIs(s: string)
    ensures Spells(s, Lower(s))
  {
    forall i | 0 <= i < |s| ensures Lowered(s[i], Lower(s)[i]) && !IsUpper(Lower(s)[i]) {
      CharLaws(s[i]);
    }
  }

  datatype Run = Run(start: nat, end: nat)

  ghost predicate AllWord(line: string, start: nat, end: nat) {
    end <= |line| && forall i :: start <= i < end ==> IsWordChar(line[i])
  }

  /** A run of word characters that cannot be extended on either side. */
  ghost predicate Maximal(line: string, r: Run) {
    && r.start < r.end && AllWord(line, r.start, r.end)
    && (r.start > 0 ==> !IsWordChar(line[r.start - 1]))
    && (r.end < |line| ==> !IsWordChar(line[r.end]))
  }

  /** The lower-case text of some runs of a line. */
  ghost function Texts(line: string, runs: seq<Run>): (r: seq<string>)
    requires Ends(line, runs)
    ensures |r| == |runs| && forall k :: 0 <= k < |runs| ==> r[k] == Lower(line[runs[k].start..runs[k].end])
  {
    seq(|runs|, k requires 0 <= k < |runs| => Lower(line[runs[k].start..runs[k].end]))
  }

  /** All maximal runs that end before position `upTo`, or at the end of the line, in order. */
  ghost predicate RunsUpTo(line: string, runs: seq<Run>, upTo: nat) {
    && (forall k :: 0 <= k < |runs| ==> Maximal(line, runs[k]))
    && (forall j, k :: 0 <= j < k < |runs| ==> runs[j].end < runs[k].start)
    && (forall r :: Maximal(line, r) && r.start < upTo ==> r in runs)
    && (forall k :: 0 <= k < |runs| ==> runs[k].start < upTo && runs[k].end <= upTo)
  }

  /** Exactly the line's words, appended to `vec`, in order. */
  ghost predicate ParsedTo(line: string, vec: seq<string>, r: seq<string>, runs: seq<Run>) {
    RunsUpTo(line, runs, |line|) && r == vec + Texts(line, runs)
  }

  /** The first word character after position e (lines 418-429). */
  method FindNext(line: string, e: nat) returns (found: bool, at: nat)
    requires e < |line|
    ensures found ==> e < at < |line| && IsWordChar(line[at])
    ensures forall i :: e < i < (if found then at else |line|) ==> !IsWordChar(line[i])
  {
    var i := e + 1;
    while i < |line|
      invariant e < i <= |line| && forall j :: e < j < i ==> !IsWordChar(line[j])
    {
      if IsWordChar(line[i]) {
        return true, i;
      }
      i := i + 1;
    }
    return false, 0;
  }

  /** The run [s, e) closes the list up to e. */
  lemma AddRun(line: string, runs: seq<Run>, s: nat, e: nat)
    requires RunsUpTo(line, runs, s) && s < e && AllWord(line, s, e)
    requires (s > 0 ==> !IsWordChar(line[s - 1])) && (e < |line| ==> !IsWordChar(line[e]))
    ensures RunsUpTo(line, runs + [Run(s, e)], e)
  {
  }

  /** No run starts among characters that belong to no word. */
  lemma Skip(line: string, runs: seq<Run>, e: nat, to: nat)
    requires RunsUpTo(line, runs, e) && e <= to <= |line| && forall i :: e <= i < to ==> !IsWordChar(line[i])
    ensures RunsUpTo(line, runs, to)
  {
    forall r | Maximal(line, r) && r.start < to ensures r in runs {
      assert IsWordChar(line[r.start]);
    }
  }

  /** The words of a line are determined: two lists of all its runs are equal. */
  lemma {:induction false} RunsUnique(line: string, runs: seq<Run>, runs1: seq<Run>, upTo: nat)
    requires RunsUpTo(line, runs, upTo) && RunsUpTo(line, runs1, upTo)
    ensures runs == runs1
  {
    var k := 0;
    while k < |runs| && k < |runs1|
      invariant k <= |runs| && k <= |runs1| && runs[..k] == runs1[..k]
    {
      SameAt(line, runs, runs1, upTo, k);
      SameAt(line, runs1, runs, upTo, k);
      assert runs[k] == runs1[k];
      k := k + 1;
    }
    if k < |runs| {
      SameAt(line, runs, runs1, upTo, k);
    } else if k < |runs1| {
      SameAt(line, runs1, runs, upTo, k);
    }
  }

  /** A run past the common part of two lists comes no earlier than the other list's next. */
  lemma SameAt(line: string, runs: seq<Run>, runs1: seq<Run>, upTo: nat, k: nat)
    requires RunsUpTo(line, runs, upTo) && RunsUpTo(line, runs1, upTo)
    requires k < |runs| && k <= |runs1| && runs[..k] == runs1[..k]
    ensures k < |runs1| && runs1[k].start <= runs[k].start && (runs1[k].start == runs[k].start ==> runs1[k] == runs[k])
  {
  }

  /** The words of a line. */
  ghost function Words(line: string): seq<string> {
    if exists runs :: RunsUpTo(line, runs, |line|) then
      var runs :| RunsUpTo(line, runs, |line|);
      Texts(line, runs)
    else []
  }

  lemma WordsAre(line: string, runs: seq<Run>)
    requires RunsUpTo(line, runs, |line|)
    ensures Ends(line, runs) && Words(line) == Texts(line, runs)
    ensures forall k :: 0 <= k < |Words(line)| ==> Words(line)[k] != ""
  {
    hide RunsUpTo, Texts;
    EndsAre(line, runs);
    var runs1 := WordsChosen(line, runs);
    RunsUnique(line, runs, runs1, |line|);
  }

  lemma WordsChosen(line: string, runs: seq<Run>) returns (runs1: seq<Run>)
    requires RunsUpTo(line, runs, |line|)
    ensures RunsUpTo(line, runs1, |line|) && Ends(line, runs1) && Words(line) == Texts(line, runs1)
  {
    hide Texts;
    runs1 :| RunsUpTo(line, runs1, |line|) && Words(line) == Texts(line, runs1);
  }

  lemma EndsAre(line: string, runs: seq<Run>)
    requires RunsUpTo(line, runs, |line|)
    ensures Ends(line, runs) && forall k :: 0 <= k < |runs| ==> runs[k].start < runs[k].end
  {
    forall k | 0 <= k < |runs| ensures runs[k].start < runs[k].end <= |line| {
      assert Maximal(line, runs[k]);
    }
  }

  /** The words cut a line up: they are the maximal stretches of word characters, in order,
      every word character lies in one, and r spells them in lower case behind vec. */
  ghost predicate Spelled(line: string, vec: seq<string>, r: seq<string>, runs: seq<Run>) {
    && |r| == |vec| + |runs| && vec <= r
    && (forall k :: 0 <= k < |runs| ==> runs[k].start < runs[k].end <= |line|)
    && (forall j, k :: 0 <= j < k < |runs| ==> runs[j].end < runs[k].start)
    && (forall i :: 0 <= i < |line| ==> (Wordly(line[i]) <==> exists k :: InRun(runs, k, i)))
    && forall k :: 0 <= k < |runs| ==> Spells(line[runs[k].start..runs[k].end], r[|vec| + k])
  }

  ghost predicate InRun(runs: seq<Run>, k: int, i: int) {
    0 <= k < |runs| && runs[k].start <= i < runs[k].end
  }

  /** A word character lies in a run. */
  lemma RunAround(line: string, runs: seq<Run>, i: nat)
    requires RunsUpTo(line, runs, |line|) && i < |line| && IsWordChar(line[i])
    ensures exists k :: InRun(runs, k, i)
  {
    var s: nat, e: nat := i, i + 1;
    while s > 0 && IsWordChar(line[s - 1])
      invariant s <= i && AllWord(line, s, i + 1)
    {
      s := s - 1;
    }
    while e < |line| && IsWordChar(line[e])
      invariant i < e <= |line| && AllWord(line, s, e)
    {
      e := e + 1;
    }
    assert Maximal(line, Run(s, e));
    var k :| 0 <= k < |runs| && runs[k] == Run(s, e);
    assert InRun(runs, k, i);
  }

  lemma ParsedSpells(line: string, vec: seq<string>, r: seq<string>, runs: seq<Run>)
    requires RunsUpTo(line, runs, |line|) && Ends(line, runs) && r == vec + Texts(line, runs)
    ensures Spelled(line, vec, r, runs)
  {
    hide Spells;
    EndsAre(line, runs);
    forall i | 0 <= i < |line| ensures Wordly(line[i]) <==> exists k :: InRun(runs, k, i) {
      CharLaws(line[i]);
      if IsWordChar(line[i]) {
        RunAround(line, runs, i);
      }
      if exists k :: InRun(runs, k, i) {
        var k :| InRun(runs, k, i);
        assert Maximal(line, runs[k]);
      }
    }
    forall k | 0 <= k < |runs| ensures Spells(line[runs[k].start..runs[k].end], r[|vec| + k]) {
      LowerIs(line[runs[k].start..runs[k].end]);
      assert r[|vec| + k] == Lower(line[runs[k].start..runs[k].end]);
    }
  }

  /** Appends exactly the maximal runs of the line, in order and in lower case. */
  method Parse(line: string, vec: seq<string>) returns (r: seq<string>, ghost runs: seq<Run>)
    ensures ParsedTo(line, vec, r, runs) && r == vec + Words(line)
    ensures forall k :: 0 <= k < |Words(line)| ==> Words(line)[k] != ""
    ensures Spelled(line, vec, r, runs)
  {
    hide RunsUpTo, Maximal, Words;
    r, runs := vec, [];
    var s: nat, e: nat := 0, 0;
    NoRuns(line);
    while s < |line| && e < |line|
      invariant s <= e <= |line| && AllWord(line, s, e) && (s > 0 ==> !IsWordChar(line[s - 1]))
      invariant RunsUpTo(line, runs, s) && Ends(line, runs) && r == vec + Texts(line, runs)
      decreases |line| - e
    {
      if IsWordChar(line[e]) {
        e := e + 1;
      } else {
        if s != e {
          AddRun(line, runs, s, e);
          r, runs := AddWord(line, vec, r, runs, s, e);
        }
        var found, at := FindNext(line, e);
        Skip(line, runs, e, if found then at else |line|);
        if found {
          s, e := at, at;
        } else {
          s := e;
          break;
        }
      }
    }
    if s != e {
      AddRun(line, runs, s, e);
      r, runs := AddWord(line, vec, r, runs, s, e);
    }
    WordsAre(line, runs);
    ParsedSpells(line, vec, r, runs);
  }

  ghost predicate Ends(line: string, runs: seq<Run>) {
    forall k :: 0 <= k < |runs| ==> runs[k].start <= runs[k].end <= |line|
  }

  lemma NoRuns(line: string)
    ensures RunsUpTo(line, [], 0)
  {
  }

  /** Appends one word, in lower case (lines 412-414). */
  method AddWord(line: string, ghost vec: seq<string>, r: seq<string>, ghost runs: seq<Run>, s: nat, e: nat)
      returns (r1: seq<string>, ghost runs1: seq<Run>)
    requires s <= e <= |line| && Ends(line, runs) && r == vec + Texts(line, runs)
    ensures runs1 == runs + [Run(s, e)] && Ends(line, runs1) && r1 == vec + Texts(line, runs1)
  {
    var word := ToLower(line[s..e]);
    r1, runs1 := r + [word], runs + [Run(s, e)];
    assert Texts(line, runs1) == Texts(line, runs) + [word];
  }
}
