/** `remove_comments` of src/parser.rs: drop the comment lines of a puzzle
    file, those whose first character is `#`. */
module Parser {

  /** The filter `retain` applies: keep a line that is empty, or whose first
      character is not `#`. */
  predicate Keep(line: string)
  {
    (|line| != 0 && line[0] != '#') || |line| == 0
  }

  /** A line that starts a comment. */
  predicate IsComment(line: string)
  {
    |line| > 0 && line[0] == '#'
  }

  /** `remove_comments`: the lines `Keep` accepts, in their order. */
  function RemoveComments(lines: seq<string>): (r: seq<string>)
    ensures |r| <= |lines|
    ensures forall i :: 0 <= i < |r| ==> !IsComment(r[i])
    ensures forall l :: l in r <==> l in lines && !IsComment(l)
  {
    if |lines| == 0 then []
    else if Keep(lines[0]) then [lines[0]] + RemoveComments(lines[1..])
    else RemoveComments(lines[1..])
  }

  /** `sub` is `s` with some elements left out, the rest in order. */
  predicate Subsequence(sub: seq<string>, s: seq<string>)
    decreases |s|
  {
    |sub| == 0 || (|s| > 0 && ((sub[0] == s[0] && Subsequence(sub[1..], s[1..])) || Subsequence(sub, s[1..])))
  }

  /** The lines kept are a subsequence of the input: none is reordered. */
  lemma {:induction false} RemoveCommentsKeepsOrder(lines: seq<string>)
    ensures Subsequence(RemoveComments(lines), lines)
  {
    if |lines| > 0 {
      RemoveCommentsKeepsOrder(lines[1..]);
      var rest := RemoveComments(lines[1..]);
      if Keep(lines[0]) {
        assert ([lines[0]] + rest)[1..] == rest;
      }
    }
  }

  /** Filtering distributes over concatenation. */
  lemma {:induction false} RemoveCommentsAppend(a: seq<string>, b: seq<string>)
    ensures RemoveComments(a + b) == RemoveComments(a) + RemoveComments(b)
  {
    if |a| == 0 {
      assert a + b == b;
    } else {
      assert (a + b)[1..] == a[1..] + b;
      RemoveCommentsAppend(a[1..], b);
    }
  }

  /** Each line is kept exactly when it is not a comment; in particular an
      empty line is always kept. */
  lemma KeepIffNotComment(line: string)
    ensures Keep(line) <==> !IsComment(line)
    ensures |line| == 0 ==> RemoveComments([line]) == [line]
  {
    assert [line][1..] == [];
  }

  /** Filtering a second time changes nothing. */
  lemma {:induction false} RemoveCommentsIdempotent(lines: seq<string>)
    ensures RemoveComments(RemoveComments(lines)) == RemoveComments(lines)
  {
    if |lines| > 0 {
      RemoveCommentsIdempotent(lines[1..]);
      var rest := RemoveComments(lines[1..]);
      if Keep(lines[0]) {
        assert ([lines[0]] + rest)[1..] == rest;
      }
    }
  }

  /** The number of comment lines. */
  function Comments(lines: seq<string>): nat
  {
    if |lines| == 0 then 0 else (if IsComment(lines[0]) then 1 else 0) + Comments(lines[1..])
  }

  /** Exactly the comment lines go: the output is shorter by their number. */
  lemma {:induction false} RemoveCommentsDropsComments(lines: seq<string>)
    ensures |RemoveComments(lines)| + Comments(lines) == |lines|
  {
    if |lines| > 0 {
      RemoveCommentsDropsComments(lines[1..]);
    }
  }
}
