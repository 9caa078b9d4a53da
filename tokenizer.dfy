/** Whitespace tokenization of a command line, as commandProcessInput performs it with
    strtok_r on the delimiters space, tab, CR and LF, cutting over-long tokens to
    COMMAND_ARGUMENT_LENGTH characters. */
module Tokenizer {
  import opened Types

  predicate IsDelimiter(c: char) {
    c == ' ' || c == '\t' || c == '\r' || c == '\n'
  }

  /** A token: a non-empty run of non-delimiter characters. */
  predicate IsWord(w: string) {
    w != [] && forall k :: 0 <= k < |w| ==> !IsDelimiter(w[k])
  }

  /** Length of the run of non-delimiters that starts `s`. */
  function WordLength(s: string): (n: nat)
    ensures n <= |s|
    ensures forall k :: 0 <= k < n ==> !IsDelimiter(s[k])
    ensures n == |s| || IsDelimiter(s[n])
  {
    if s == [] || IsDelimiter(s[0]) then 0 else 1 + WordLength(s[1..])
  }

  /** The maximal runs of non-delimiter characters of `s`, in the order they occur. */
  function Tokens(s: string): (r: seq<string>)
    ensures forall i :: 0 <= i < |r| ==> IsWord(r[i])
    decreases |s|
  {
    if s == [] then []
    else if IsDelimiter(s[0]) then Tokens(s[1..])
    else
      var n := WordLength(s);
      [s[..n]] + Tokens(s[n..])
  }

  /** An over-long token is cut to its first ArgumentLength characters. */
  function Truncate(t: string): (r: string)
    ensures r <= t && |r| == Min(|t|, ArgumentLength)
  {
    if |t| > ArgumentLength then t[..ArgumentLength] else t
  }

  /** The argument list a handler receives: at most `limit` tokens of `s`, in input order,
      each truncated. Entry 0 is the command word itself. */
  function Arguments(s: string, limit: nat): (r: seq<string>)
    ensures |r| == Min(limit, |Tokens(s)|)
  {
    var ts := Tokens(s);
    seq(Min(limit, |ts|), i requires 0 <= i < Min(limit, |ts|) => Truncate(ts[i]))
  }

  lemma ArgumentsShape(s: string, limit: nat)
    ensures |Arguments(s, limit)| <= limit
    ensures |Arguments(s, limit)| == limit || |Arguments(s, limit)| == |Tokens(s)|
    ensures forall i :: 0 <= i < |Arguments(s, limit)| ==>
      IsWord(Arguments(s, limit)[i]) && |Arguments(s, limit)[i]| <= ArgumentLength
      && Arguments(s, limit)[i] <= Tokens(s)[i]
      && (|Tokens(s)[i]| <= ArgumentLength ==> Arguments(s, limit)[i] == Tokens(s)[i])
      && (|Tokens(s)[i]| > ArgumentLength ==> Arguments(s, limit)[i] == Tokens(s)[i][..ArgumentLength])
  {
  }

  /** A span [start, end) of the input. */
  datatype Span = Span(start: nat, end: nat)

  /** First position at or after `i` that is not a delimiter (or the end). */
  function SkipDelimiters(s: string, i: nat): (j: nat)
    requires i <= |s|
    ensures i <= j <= |s|
    ensures j == |s| || !IsDelimiter(s[j])
    ensures Tokens(s[i..]) == Tokens(s[j..])
    decreases |s| - i
  {
    if i == |s| || !IsDelimiter(s[i]) then i
    else
      assert s[i..][1..] == s[i + 1..];
      SkipDelimiters(s, i + 1)
  }

  /** One strtok_r step over the unconsumed part `s[pos..]`: the span of the next token,
      or None when only delimiters remain. */
  function NextToken(s: string, pos: nat): (r: Option<Span>)
    requires pos <= |s|
    ensures r.None? <==> Tokens(s[pos..]) == []
    ensures r.Some? ==> pos <= r.value.start < r.value.end <= |s|
    ensures r.Some? ==>
      Tokens(s[pos..]) == [s[r.value.start..r.value.end]] + Tokens(s[r.value.end..])
  {
    var b := SkipDelimiters(s, pos);
    if b == |s| then None
    else
      var n := WordLength(s[b..]);
      assert s[b..][..n] == s[b..b + n];
      assert s[b..][n..] == s[b + n..];
      Some(Span(b, b + n))
  }

  /** The tokenizer loop of commandProcessInput: fills `slots` (the max+1 scratch entries)
      with the truncated tokens of `input` and returns how many it stored. Tokens beyond
      the number of slots are dropped. */
  method Tokenize(input: CString, slots: array<string>) returns (count: nat)
    modifies slots
    ensures count <= slots.Length
    ensures slots[..count] == Arguments(input, slots.Length)
    ensures forall i :: count <= i < slots.Length ==> slots[i] == old(slots[i])
  {
    count := 0;
    var pos: nat := 0;
    assert input[pos..] == input;
    while count < slots.Length
      invariant count <= slots.Length && pos <= |input|
      invariant count <= |Tokens(input)| && Tokens(input[pos..]) == Tokens(input)[count..]
      invariant forall i :: 0 <= i < count ==> slots[i] == Truncate(Tokens(input)[i])
      invariant forall i :: count <= i < slots.Length ==> slots[i] == old(slots[i])
    {
      var next := NextToken(input, pos);
      if next.None? {
        break;
      }
      var argument := input[next.value.start..next.value.end];
      assert Tokens(input)[count..][0] == argument;
      assert Tokens(input)[count..][1..] == Tokens(input)[count + 1..];
      if |argument| > ArgumentLength {
        argument := argument[..ArgumentLength];
      }
      slots[count] := argument;
      count := count + 1;
      pos := next.value.end;
    }
  }

  /** Words joined by single spaces, as a user would type them. */
  function JoinWords(ws: seq<string>): string {
    if ws == [] then [] else ws[0] + [' '] + JoinWords(ws[1..])
  }

  lemma {:induction false} WordLengthAtLeast(s: string, n: nat)
    requires n <= |s|
    requires forall k :: 0 <= k < n ==> !IsDelimiter(s[k])
    ensures WordLength(s) >= n
  {
    if n > 0 {
      WordLengthAtLeast(s[1..], n - 1);
    }
  }

  /** Splitting a line built from words and single spaces gives the words back. */
  lemma {:induction false} TokensJoinWords(ws: seq<string>)
    requires forall i :: 0 <= i < |ws| ==> IsWord(ws[i])
    ensures Tokens(JoinWords(ws)) == ws
  {
    if ws != [] {
      var w, rest := ws[0], JoinWords(ws[1..]);
      var s := w + [' '] + rest;
      WordLengthAtLeast(s, |w|);
      assert s[|w|] == ' ';
      assert s[..|w|] == w;
      assert s[|w|..] == [' '] + rest;
      assert ([' '] + rest)[1..] == rest;
      TokensJoinWords(ws[1..]);
    }
  }

  /** A handler typed as words of at most ArgumentLength characters joined by single spaces
      receives exactly the first `limit` of those words. */
  lemma ArgumentsOfJoinedWords(ws: seq<string>, limit: nat)
    requires forall i :: 0 <= i < |ws| ==> IsWord(ws[i]) && |ws[i]| <= ArgumentLength
    ensures Arguments(JoinWords(ws), limit) == ws[..Min(limit, |ws|)]
  {
    TokensJoinWords(ws);
    var r := Arguments(JoinWords(ws), limit);
    forall i | 0 <= i < |r|
      ensures r[i] == ws[i]
    {
      assert Truncate(ws[i]) == ws[i];
    }
  }

  /** When a name without delimiters prefixes the raw input, token 0 of the line, before
      truncation, starts with that name. */
  lemma CommandWordStartsWithName(name: string, input: string)
    requires IsWord(name) && name <= input
    ensures Tokens(input) != [] && name <= Tokens(input)[0]
  {
    WordLengthAtLeast(input, |name|);
  }

  /** The command word a handler receives as argument 0 starts with the command's name,
      provided the name is no longer than ArgumentLength (a longer name is cut). */
  lemma CommandArgumentStartsWithName(name: string, input: string, limit: nat)
    requires IsWord(name) && name <= input && |name| <= ArgumentLength && limit >= 1
    ensures |Arguments(input, limit)| >= 1 && name <= Arguments(input, limit)[0]
  {
    CommandWordStartsWithName(name, input);
    var t := Tokens(input)[0];
    if |t| > ArgumentLength {
      assert Truncate(t) == t[..ArgumentLength];
      assert name == t[..|name|];
    }
  }
}
