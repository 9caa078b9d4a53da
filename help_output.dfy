/** What the built-in help command writes into the caller's output buffer: the help strings
    of the registered commands, one after another, under a guard against overflowing the
    buffer. Both the guard as the code writes it and the guard it evidently intends are
    described here. */
module HelpOutput {
  import opened Types

  /** The strings of `hs` one after another. */
  function Concat(hs: seq<string>): string {
    if hs == [] then [] else Concat(hs[..|hs| - 1]) + hs[|hs| - 1]
  }

  /** The buffer `buf` after `w` has been copied to its start. */
  function Overlay(buf: seq<char>, w: seq<char>): seq<char>
    requires |w| <= |buf|
  {
    w + buf[|w|..]
  }

  lemma OverlayPrefix(buf: seq<char>, w: seq<char>)
    requires |w| <= |buf|
    ensures |Overlay(buf, w)| == |buf| && Overlay(buf, w)[..|w|] == w
  {
  }

  /** Copying `t` right after `w` extends the overlaid text. */
  lemma OverlayAppend(buf: seq<char>, w: seq<char>, t: seq<char>)
    requires |w| + |t| <= |buf|
    ensures Overlay(buf, w)[..|w|] + t + Overlay(buf, w)[|w| + |t|..] == Overlay(buf, w + t)
  {
  }

  /** Storing a character right after `w` extends the overlaid text by that character. */
  lemma OverlayPut(buf: seq<char>, w: seq<char>, c: char)
    requires |w| < |buf|
    ensures Overlay(buf, w)[|w| := c] == Overlay(buf, w + [c])
  {
  }

  /** memcpy(buffer + at, text, |text|). */
  method MemCopy(buffer: array<char>, at: nat, text: string)
    requires at + |text| <= buffer.Length
    modifies buffer
    ensures buffer[..] == old(buffer[..])[..at] + text + old(buffer[..])[at + |text|..]
  {
    forall k | 0 <= k < |text| {
      buffer[at + k] := text[k];
    }
  }

  /** Copies `text` to offset `at`, right after the text `w` already overlaid on the buffer. */
  method CopyAfter(buffer: array<char>, at: nat, ghost buf: seq<char>, ghost w: seq<char>, text: string)
    requires at == |w| && at + |text| <= buffer.Length == |buf|
    requires buffer[..] == Overlay(buf, w)
    modifies buffer
    ensures buffer[..] == Overlay(buf, w + text)
  {
    OverlayAppend(buf, w, text);
    MemCopy(buffer, at, text);
  }

  lemma ConcatSnoc(hs: seq<string>, i: nat)
    requires i < |hs|
    ensures Concat(hs[..i + 1]) == Concat(hs[..i]) + hs[i]
  {
    assert hs[..i + 1][..i] == hs[..i];
  }

  lemma {:induction false} ConcatMonotone(hs: seq<string>, i: nat, j: nat)
    requires i <= j <= |hs|
    ensures |Concat(hs[..i])| <= |Concat(hs[..j])|
  {
    if i < j {
      ConcatSnoc(hs, j - 1);
      ConcatMonotone(hs, i, j - 1);
    }
  }

  /** Every help string is at most as long as all of them together. */
  lemma ElementWithinConcat(hs: seq<string>, i: nat)
    requires i < |hs|
    ensures |hs[i]| <= |Concat(hs)|
  {
    ConcatSnoc(hs, i);
    ConcatMonotone(hs, i + 1, |hs|);
    assert hs[..|hs|] == hs;
  }

  // ----- the guard as written: each string is compared with capacity - 1 alone -----

  /** How far the help loop gets: the index of the first help string longer than
      `capacity - 1`, or all of them when there is none. */
  function FitCount(hs: seq<string>, capacity: int): (k: nat)
    requires capacity >= 1
    ensures k <= |hs|
    ensures forall i :: 0 <= i < k ==> |hs[i]| <= capacity - 1
    ensures k < |hs| ==> |hs[k]| > capacity - 1
  {
    if hs == [] || |hs[0]| > capacity - 1 then 0 else 1 + FitCount(hs[1..], capacity)
  }

  /** What the help handler writes from the start of the buffer: the strings it copied and,
      when it reached the end of the list, the terminating NUL. On overflow nothing
      terminates the copied text. */
  function HelpWritten(hs: seq<string>, capacity: int): (r: string)
    requires capacity >= 1
    ensures Concat(hs[..FitCount(hs, capacity)]) <= r
    ensures |r| <= |Concat(hs)| + 1
  {
    var k := FitCount(hs, capacity);
    ConcatMonotone(hs, k, |hs|);
    assert hs[..|hs|] == hs;
    Concat(hs[..k]) + (if k == |hs| then "\0" else "")
  }

  function HelpResult(hs: seq<string>, capacity: int): (r: Error)
    requires capacity >= 1
    ensures r == NoError || r == BufferOverflow
    ensures r == BufferOverflow <==> exists i :: 0 <= i < |hs| && |hs[i]| > capacity - 1
  {
    if FitCount(hs, capacity) == |hs| then NoError else BufferOverflow
  }

  /** The help handler stays inside a buffer of `capacity` characters. */
  predicate HelpInBounds(hs: seq<string>, capacity: int)
    requires capacity >= 1
  {
    |HelpWritten(hs, capacity)| <= capacity
  }

  /** A string the guard lets through is copied inside the buffer. */
  lemma HelpCopyInBounds(hs: seq<string>, capacity: int, i: nat)
    requires capacity >= 1 && HelpInBounds(hs, capacity)
    requires i < FitCount(hs, capacity)
    ensures |Concat(hs[..i]) + hs[i]| <= capacity
  {
    ConcatSnoc(hs, i);
    ConcatMonotone(hs, i + 1, FitCount(hs, capacity));
  }

  /** The first string the guard rejects ends the help output: overflow is reported and
      only the earlier strings have been written. */
  lemma HelpStopsAt(hs: seq<string>, capacity: int, i: nat)
    requires capacity >= 1 && i <= FitCount(hs, capacity) && i < |hs| && |hs[i]| > capacity - 1
    ensures HelpResult(hs, capacity) == BufferOverflow
    ensures HelpWritten(hs, capacity) == Concat(hs[..i])
  {
  }

  /** When the guard lets every string through, the output is all of them and a NUL. */
  lemma HelpReachesEnd(hs: seq<string>, capacity: int)
    requires capacity >= 1 && FitCount(hs, capacity) == |hs|
    ensures HelpResult(hs, capacity) == NoError
    ensures HelpWritten(hs, capacity) == Concat(hs) + "\0"
  {
    assert hs[..|hs|] == hs;
  }

  /** When all help strings and the terminator fit, help succeeds with their
      concatenation followed by NUL. */
  lemma HelpSucceedsWhenAllFit(hs: seq<string>, capacity: int)
    requires |Concat(hs)| + 1 <= capacity
    ensures HelpResult(hs, capacity) == NoError
    ensures HelpWritten(hs, capacity) == Concat(hs) + "\0"
    ensures HelpInBounds(hs, capacity)
  {
    var k := FitCount(hs, capacity);
    if k < |hs| {
      ElementWithinConcat(hs, k);
    }
    assert hs[..|hs|] == hs;
  }

  /** The guard looks at each string on its own: when every string fits by itself but all
      of them together do not, the loop runs to the end and writes past the buffer. */
  lemma PerStringGuardOverruns(hs: seq<string>, capacity: int)
    requires capacity >= 1
    requires forall i :: 0 <= i < |hs| ==> |hs[i]| <= capacity - 1
    requires |Concat(hs)| >= capacity
    ensures HelpResult(hs, capacity) == NoError
    ensures !HelpInBounds(hs, capacity)
  {
    assert hs[..|hs|] == hs;
  }

  /** A concrete overrun: "ab" and "c" each fit a 3-character buffer, so help copies three
      characters and writes its NUL at index 3, one past the end. */
  lemma HelpOverrunExample()
    ensures FitCount(["ab", "c"], 3) == 2
    ensures HelpWritten(["ab", "c"], 3) == "abc\0"
    ensures !HelpInBounds(["ab", "c"], 3)
  {
    var hs := ["ab", "c"];
    assert hs[..2] == hs;
    assert hs[..1] == ["ab"];
    assert Concat(hs[..1]) == "ab";
  }

  // ----- the guard as intended: the room left after what is already written -----

  function BoundedFitFrom(hs: seq<string>, capacity: int, i: nat): (k: nat)
    requires i <= |hs| && |Concat(hs[..i])| <= capacity - 1
    ensures i <= k <= |hs|
    ensures |Concat(hs[..k])| <= capacity - 1
    ensures k < |hs| ==> |Concat(hs[..k + 1])| > capacity - 1
    decreases |hs| - i
  {
    if i == |hs| || |Concat(hs[..i + 1])| > capacity - 1 then i
    else BoundedFitFrom(hs, capacity, i + 1)
  }

  /** How many help strings fit together with the terminator: the longest prefix whose
      concatenation is at most `capacity - 1` characters. */
  function BoundedFitCount(hs: seq<string>, capacity: int): (k: nat)
    requires capacity >= 1
    ensures k <= |hs|
    ensures |Concat(hs[..k])| <= capacity - 1
    ensures k < |hs| ==> |Concat(hs[..k + 1])| > capacity - 1
  {
    BoundedFitFrom(hs, capacity, 0)
  }

  function BoundedHelpWritten(hs: seq<string>, capacity: int): string
    requires capacity >= 1
  {
    var k := BoundedFitCount(hs, capacity);
    Concat(hs[..k]) + (if k == |hs| then "\0" else "")
  }

  /** The corrected guard always stays inside the buffer, and it reports success exactly
      when all help strings and the terminator fit. */
  lemma {:induction false} BoundedHelpCorrect(hs: seq<string>, capacity: int)
    requires capacity >= 1
    ensures |BoundedHelpWritten(hs, capacity)| <= capacity
    ensures BoundedFitCount(hs, capacity) == |hs| <==> |Concat(hs)| + 1 <= capacity
    ensures |Concat(hs)| + 1 <= capacity ==> BoundedHelpWritten(hs, capacity) == Concat(hs) + "\0"
  {
    var k := BoundedFitCount(hs, capacity);
    assert hs[..|hs|] == hs;
    if k < |hs| {
      ConcatMonotone(hs, k + 1, |hs|);
    }
  }

  /** Where the as-written guard is safe and succeeds, the corrected one writes the same. */
  lemma BoundedAgreesWhenAllFit(hs: seq<string>, capacity: int)
    requires |Concat(hs)| + 1 <= capacity
    ensures BoundedHelpWritten(hs, capacity) == HelpWritten(hs, capacity)
  {
    HelpSucceedsWhenAllFit(hs, capacity);
    BoundedHelpCorrect(hs, capacity);
  }
}
