/** Text as lines: JavaScript's `text.split('\n')` and `lines.join('\n')`. */
module Lines {

  predicate NoNewline(s: string) {
    forall j :: 0 <= j < |s| ==> s[j] != '\n'
  }

  /** Index of the first '\n' in `s`, or `|s|` when there is none. */
  function NewlineIndex(s: string): (k: nat)
    ensures k <= |s|
    ensures k < |s| ==> s[k] == '\n'
  {
    if |s| == 0 || s[0] == '\n' then 0 else 1 + NewlineIndex(s[1..])
  }

  /** No newline comes before the first one. */
  lemma {:induction false} NewlineIndexFirst(s: string)
    ensures forall j :: 0 <= j < NewlineIndex(s) ==> s[j] != '\n'
  {
    if |s| > 0 && s[0] != '\n' {
      NewlineIndexFirst(s[1..]);
      assert forall j :: 1 <= j < NewlineIndex(s) ==> s[j] == s[1..][j - 1];
    }
  }

  /** `s.split('\n')`: one more piece than there are newlines, so never
      empty (`"".split('\n')` is `[""]`). */
  function Split(s: string): (pieces: seq<string>)
    ensures |pieces| >= 1
    decreases |s|
  {
    var k := NewlineIndex(s);
    if k == |s| then [s] else [s[..k]] + Split(s[k + 1..])
  }

  /** `lines.join('\n')`. */
  function Join(lines: seq<string>): string {
    if |lines| == 0 then ""
    else if |lines| == 1 then lines[0]
    else lines[0] + "\n" + Join(lines[1..])
  }

  /** No piece of a split holds a newline. */
  lemma {:induction false} SplitNoNewline(s: string)
    ensures forall i :: 0 <= i < |Split(s)| ==> NoNewline(Split(s)[i])
    decreases |s|
  {
    var k := NewlineIndex(s);
    NewlineIndexFirst(s);
    if k < |s| {
      var rest := s[k + 1..];
      SplitNoNewline(rest);
      assert Split(s) == [s[..k]] + Split(rest);
      assert NoNewline(s[..k]) by {
        assert forall j :: 0 <= j < k ==> s[..k][j] == s[j];
      }
    }
  }

  /** The first newline is wherever the characters stop being non-newlines. */
  lemma {:induction false} NewlineIndexAt(s: string, k: nat)
    requires k <= |s|
    requires forall j :: 0 <= j < k ==> s[j] != '\n'
    requires k < |s| ==> s[k] == '\n'
    ensures NewlineIndex(s) == k
  {
    NewlineIndexFirst(s);
  }

  /** Text without a newline is one line. */
  lemma {:induction false} SplitSingle(s: string)
    requires NoNewline(s)
    ensures Split(s) == [s]
  {
    NewlineIndexAt(s, |s|);
  }

  /** Splitting at a newline splits the two sides independently. */
  lemma {:induction false} SplitConcat(a: string, b: string)
    ensures Split(a + "\n" + b) == Split(a) + Split(b)
    decreases |a|
  {
    var s := a + "\n" + b;
    var k := NewlineIndex(a);
    NewlineIndexFirst(a);
    NewlineIndexAt(s, k);
    if k == |a| {
      assert s[..k] == a;
      assert s[k + 1..] == b;
    } else {
      assert s[..k] == a[..k];
      assert s[k + 1..] == a[k + 1..] + "\n" + b;
      SplitConcat(a[k + 1..], b);
    }
  }

  /** Text that is empty or ends in a newline contributes its complete lines,
      and whatever follows starts a fresh line. */
  lemma {:induction false} SplitAfterLineEnd(x: string, y: string)
    requires x == "" || x[|x| - 1] == '\n'
    ensures |Split(x)| >= 1 && Split(x)[|Split(x)| - 1] == ""
    ensures Split(x + y) == Split(x)[..|Split(x)| - 1] + Split(y)
  {
    if x == "" {
      SplitSingle("");
      assert x + y == y;
    } else {
      var x' := x[..|x| - 1];
      assert x == x' + "\n" + "";
      SplitConcat(x', "");
      SplitSingle("");
      assert x + y == x' + "\n" + y;
      SplitConcat(x', y);
      assert Split(x)[..|Split(x)| - 1] == Split(x');
    }
  }

  /** Joining a line in front of at least one more line puts a newline between. */
  lemma JoinCons(first: string, rest: seq<string>)
    requires |rest| >= 1
    ensures Join([first] + rest) == first + "\n" + Join(rest)
  {
    assert ([first] + rest)[1..] == rest;
  }

  /** `join` undoes `split`. */
  lemma {:induction false} JoinSplit(s: string)
    ensures Join(Split(s)) == s
    decreases |s|
  {
    var k := NewlineIndex(s);
    if k < |s| {
      var rest := s[k + 1..];
      JoinSplit(rest);
      assert Split(s) == [s[..k]] + Split(rest);
      JoinCons(s[..k], Split(rest));
      assert s == s[..k] + "\n" + rest;
    }
  }

  /** `split` undoes `join` of lines that hold no newline. */
  lemma {:induction false} SplitJoin(lines: seq<string>)
    requires |lines| >= 1
    requires forall i :: 0 <= i < |lines| ==> NoNewline(lines[i])
    ensures Split(Join(lines)) == lines
  {
    var first := lines[0];
    SplitSingle(first);
    if |lines| > 1 {
      var rest := lines[1..];
      assert forall i :: 0 <= i < |rest| ==> NoNewline(rest[i]) by {
        forall i | 0 <= i < |rest| ensures NoNewline(rest[i]) {
          assert rest[i] == lines[i + 1];
        }
      }
      SplitJoin(rest);
      assert Join(lines) == first + "\n" + Join(rest);
      SplitConcat(first, Join(rest));
      assert lines == [first] + rest;
    }
  }
}
