/** commandArgumentsToPairs: turning "--key value" tokens into key/value pairs stored in a
    caller-supplied fixed-size array. */
module Pairs {
  import opened Types

  /** A token is a key when it is "--" followed by at least one more character
      (`argument[2] != '\0'`); a bare "--", "-x" and everything else are values. */
  predicate IsKey(t: string)
    ensures IsKey(t) ==> "--" <= t && |t| > |"--"|
  {
    |t| >= 3 && t[0] == '-' && t[1] == '-'
  }

  function KeyCount(ts: seq<string>): nat {
    if ts == [] then 0 else (if IsKey(ts[0]) then 1 else 0) + KeyCount(ts[1..])
  }

  /** The value that belongs to a key followed by `ts`: the last of the non-key tokens
      before the next key, or None when a key (or the end) comes first. */
  function ValueAfter(ts: seq<string>): Option<string> {
    if ts == [] || IsKey(ts[0]) then None
    else
      match ValueAfter(ts[1..])
      case Some(v) => Some(v)
      case None => Some(ts[0])
  }

  /** Reference definition of the extraction: one pair per key token, in order, holding
      the key's suffix after "--" and ValueAfter the key. Values before the first key
      belong to no pair. */
  function PairsOf(ts: seq<string>): (r: seq<Pair>)
    ensures |r| == KeyCount(ts)
    ensures forall k :: 0 <= k < |r| ==> r[k].key.Some?
  {
    if ts == [] then []
    else if IsKey(ts[0]) then [Pair(Some(ts[0][2..]), ValueAfter(ts[1..]))] + PairsOf(ts[1..])
    else PairsOf(ts[1..])
  }

  function OrElse(a: Option<string>, b: Option<string>): Option<string> {
    if a.Some? then a else b
  }

  lemma {:induction false} KeyCountAppend(a: seq<string>, b: seq<string>)
    ensures KeyCount(a + b) == KeyCount(a) + KeyCount(b)
  {
    if a != [] {
      assert (a + b)[1..] == a[1..] + b;
      KeyCountAppend(a[1..], b);
    } else {
      assert a + b == b;
    }
  }

  lemma KeyCountPrefix(ts: seq<string>, i: nat)
    requires i <= |ts|
    ensures KeyCount(ts[..i]) <= KeyCount(ts)
  {
    assert ts == ts[..i] + ts[i..];
    KeyCountAppend(ts[..i], ts[i..]);
  }

  /** Appending a token changes the leading value only while no key has been seen. */
  lemma {:induction false} ValueAfterSnoc(ts: seq<string>, t: string)
    ensures ValueAfter(ts + [t]) ==
      if KeyCount(ts) == 0 && !IsKey(t) then Some(t) else ValueAfter(ts)
  {
    if ts != [] {
      assert (ts + [t])[1..] == ts[1..] + [t];
      ValueAfterSnoc(ts[1..], t);
    }
  }

  /** How the reference extraction grows by one token: a key opens a pair with no value,
      a value replaces the value of the last pair (and is dropped when there is none). */
  lemma {:induction false} PairsOfSnoc(ts: seq<string>, t: string)
    ensures IsKey(t) ==> PairsOf(ts + [t]) == PairsOf(ts) + [Pair(Some(t[2..]), None)]
    ensures !IsKey(t) && KeyCount(ts) == 0 ==> PairsOf(ts + [t]) == []
    ensures !IsKey(t) && KeyCount(ts) > 0 ==>
      var p := PairsOf(ts);
      PairsOf(ts + [t]) == p[..|p| - 1] + [p[|p| - 1].(value := Some(t))]
  {
    if ts == [] {
    } else {
      var a, rest := ts[0], ts[1..];
      assert (ts + [t])[1..] == rest + [t];
      PairsOfSnoc(rest, t);
      ValueAfterSnoc(rest, t);
      if IsKey(a) && !IsKey(t) && KeyCount(rest) > 0 {
        var p := PairsOf(rest);
        var head := Pair(Some(a[2..]), ValueAfter(rest));
        assert PairsOf(ts) == [head] + p;
        assert ([head] + p)[..|p|] == [head] + p[..|p| - 1];
      }
    }
  }

  lemma {:induction false} ValueAfterAppendAtKey(a: seq<string>, b: seq<string>)
    requires b != [] && IsKey(b[0])
    ensures ValueAfter(a + b) == ValueAfter(a)
  {
    if a != [] {
      assert (a + b)[1..] == a[1..] + b;
      ValueAfterAppendAtKey(a[1..], b);
    } else {
      assert a + b == b;
    }
  }

  /** Pairs found before a key are not affected by what follows that key. */
  lemma {:induction false} PairsOfAppendAtKey(a: seq<string>, b: seq<string>)
    requires b != [] && IsKey(b[0])
    ensures PairsOf(a + b) == PairsOf(a) + PairsOf(b)
  {
    if a != [] {
      assert (a + b)[1..] == a[1..] + b;
      PairsOfAppendAtKey(a[1..], b);
      ValueAfterAppendAtKey(a[1..], b);
    } else {
      assert a + b == b;
    }
  }

  /** commandArgumentsToPairs as written. The code writes `pairs[0]` unconditionally and
      writes slot `j + 1` for every key after the first, so it stays inside the array
      exactly when the array is non-empty and there are at most `pairs.Length` keys; the
      requires clauses state that. The result counts the key tokens, slots 0..found-1
      hold the pairs in order, and with no key at all slot 0 keeps the last leading
      value token (its key cleared). */
  method ArgumentsToPairs(arguments: seq<CString>, pairs: array<Pair>) returns (found: nat)
    requires pairs.Length >= 1
    requires KeyCount(arguments) <= pairs.Length
    modifies pairs
    ensures found == KeyCount(arguments)
    ensures pairs[..found] == PairsOf(arguments)
    ensures found == 0 ==>
      pairs[0] == Pair(None, OrElse(ValueAfter(arguments), old(pairs[0].value)))
    ensures forall k :: Max(found, 1) <= k < pairs.Length ==> pairs[k] == old(pairs[k])
  {
    pairs[0] := pairs[0].(key := None);
    var i, j := 0, 0;
    found := 0;
    while i < |arguments| && j < pairs.Length
      invariant 0 <= i <= |arguments|
      invariant found == KeyCount(arguments[..i]) <= pairs.Length
      invariant j == if found == 0 then 0 else found - 1
      invariant pairs[j].key.Some? <==> found > 0
      invariant pairs[..found] == PairsOf(arguments[..i])
      invariant found == 0 ==>
        pairs[0] == Pair(None, OrElse(ValueAfter(arguments[..i]), old(pairs[0].value)))
      invariant forall k :: Max(found, 1) <= k < pairs.Length ==> pairs[k] == old(pairs[k])
    {
      var argument := arguments[i];
      assert arguments[..i + 1] == arguments[..i] + [argument];
      KeyCountAppend(arguments[..i], [argument]);
      PairsOfSnoc(arguments[..i], argument);
      ValueAfterSnoc(arguments[..i], argument);
      KeyCountPrefix(arguments, i + 1);
      i := i + 1;
      if IsKey(argument) {
        if pairs[j].key.Some? {
          j := j + 1;
        }
        pairs[j] := Pair(Some(argument[2..]), None);
        found := found + 1;
      } else {
        pairs[j] := pairs[j].(value := Some(argument));
      }
    }
    assert arguments[..i] == arguments;
  }

  /** The extraction the code evidently intends: it stops once every slot holds a pair
      and accepts an empty array, so it never writes outside `pairs`. The result is the
      number of keys up to the capacity, and the stored pairs are the first ones of the
      reference extraction. */
  method ArgumentsToPairsBounded(arguments: seq<CString>, pairs: array<Pair>) returns (found: nat)
    modifies pairs
    ensures found == Min(KeyCount(arguments), pairs.Length)
    ensures pairs[..found] == PairsOf(arguments)[..found]
    ensures found == 0 && pairs.Length >= 1 ==>
      pairs[0] == Pair(None, OrElse(ValueAfter(arguments), old(pairs[0].value)))
    ensures forall k :: Max(found, 1) <= k < pairs.Length ==> pairs[k] == old(pairs[k])
  {
    found := 0;
    if pairs.Length == 0 {
      return;
    }
    pairs[0] := pairs[0].(key := None);
    var i, j := 0, 0;
    while i < |arguments|
      invariant 0 <= i <= |arguments|
      invariant found == KeyCount(arguments[..i]) <= pairs.Length
      invariant j == if found == 0 then 0 else found - 1
      invariant pairs[j].key.Some? <==> found > 0
      invariant pairs[..found] == PairsOf(arguments[..i])
      invariant found == 0 ==>
        pairs[0] == Pair(None, OrElse(ValueAfter(arguments[..i]), old(pairs[0].value)))
      invariant forall k :: Max(found, 1) <= k < pairs.Length ==> pairs[k] == old(pairs[k])
    {
      var argument := arguments[i];
      if IsKey(argument) && pairs[j].key.Some? && j + 1 == pairs.Length {
        assert arguments == arguments[..i] + arguments[i..];
        PairsOfAppendAtKey(arguments[..i], arguments[i..]);
        KeyCountAppend(arguments[..i], arguments[i..]);
        assert PairsOf(arguments)[..found] == PairsOf(arguments[..i]);
        return;
      }
      assert arguments[..i + 1] == arguments[..i] + [argument];
      KeyCountAppend(arguments[..i], [argument]);
      PairsOfSnoc(arguments[..i], argument);
      ValueAfterSnoc(arguments[..i], argument);
      i := i + 1;
      if IsKey(argument) {
        if pairs[j].key.Some? {
          j := j + 1;
        }
        pairs[j] := Pair(Some(argument[2..]), None);
        found := found + 1;
      } else {
        pairs[j] := pairs[j].(value := Some(argument));
      }
    }
    assert arguments[..i] == arguments;
  }

  /** What the loop of commandArgumentsToPairs does, for an array of `capacity` slots: the
      slots it writes, in order, and the count it returns. */
  datatype Trace = Trace(writes: seq<nat>, found: nat)

  /** The loop as written, from a state where the cursor is at slot `j`, `keyed` tells
      whether that slot already holds a key, and `found` keys have been counted. The loop
      runs while tokens remain and `j < capacity`; a key moves the cursor on when the
      current slot is keyed, and then writes the slot. */
  function PairsLoop(ts: seq<string>, capacity: nat, j: nat, keyed: bool, found: nat): (r: Trace)
    ensures |r.writes| <= |ts|
    ensures found <= r.found <= found + KeyCount(ts)
    ensures r.found - found <= |r.writes|
  {
    if ts == [] || j >= capacity then Trace([], found)
    else if IsKey(ts[0]) then
      var slot := if keyed then j + 1 else j;
      var rest := PairsLoop(ts[1..], capacity, slot, true, found + 1);
      Trace([slot] + rest.writes, rest.found)
    else
      var rest := PairsLoop(ts[1..], capacity, j, keyed, found);
      Trace([j] + rest.writes, rest.found)
  }

  /** commandArgumentsToPairs as written, for every array length: slot 0 is written first
      (its key cleared), then the loop starts at slot 0 with no key. */
  function AsWritten(ts: seq<string>, capacity: nat): (r: Trace)
    ensures 1 <= |r.writes| <= |ts| + 1 && r.writes[0] == 0
    ensures r.found <= KeyCount(ts) && r.found < |r.writes|
  {
    var r := PairsLoop(ts, capacity, 0, false, 0);
    Trace([0] + r.writes, r.found)
  }

  lemma {:induction false} LoopInBounds(ts: seq<string>, capacity: nat, j: nat, keyed: bool, found: nat)
    requires 1 <= capacity && found + KeyCount(ts) <= capacity
    requires keyed == (found > 0) && j == (if found == 0 then 0 else found - 1)
    ensures forall k :: 0 <= k < |PairsLoop(ts, capacity, j, keyed, found).writes| ==>
      PairsLoop(ts, capacity, j, keyed, found).writes[k] < capacity
    ensures PairsLoop(ts, capacity, j, keyed, found).found == found + KeyCount(ts)
    decreases |ts|
  {
    if ts != [] {
      if IsKey(ts[0]) {
        LoopInBounds(ts[1..], capacity, found, true, found + 1);
      } else {
        LoopInBounds(ts[1..], capacity, j, keyed, found);
      }
    }
  }

  lemma {:induction false} LoopOverrun(ts: seq<string>, capacity: nat, j: nat, keyed: bool, found: nat)
    requires 1 <= capacity && found <= capacity < found + KeyCount(ts)
    requires keyed == (found > 0) && j == (if found == 0 then 0 else found - 1)
    ensures capacity in PairsLoop(ts, capacity, j, keyed, found).writes
    ensures PairsLoop(ts, capacity, j, keyed, found).found == capacity + 1
    decreases |ts|
  {
    if IsKey(ts[0]) {
      if found < capacity {
        LoopOverrun(ts[1..], capacity, found, true, found + 1);
      }
    } else {
      LoopOverrun(ts[1..], capacity, j, keyed, found);
    }
  }

  /** With a non-empty array and at most one key per slot, the as-written extractor writes
      only slots inside the array and returns the number of keys. */
  lemma AsWrittenInBounds(ts: seq<string>, capacity: nat)
    requires 1 <= capacity && KeyCount(ts) <= capacity
    ensures forall k :: 0 <= k < |AsWritten(ts, capacity).writes| ==> AsWritten(ts, capacity).writes[k] < capacity
    ensures AsWritten(ts, capacity).found == KeyCount(ts)
  {
    LoopInBounds(ts, capacity, 0, false, 0);
  }

  /** With more keys than slots, the key after the first `capacity` keys bumps the cursor to
      slot `capacity`, one past the end, writes it, and is counted: the result is
      `capacity + 1`. With an empty array, line 66 already writes slot 0. */
  lemma AsWrittenOverrun(ts: seq<string>, capacity: nat)
    requires capacity == 0 || capacity < KeyCount(ts)
    ensures capacity in AsWritten(ts, capacity).writes
    ensures capacity >= 1 ==> AsWritten(ts, capacity).found == capacity + 1
  {
    if capacity >= 1 {
      LoopOverrun(ts, capacity, 0, false, 0);
    }
  }

  /** The extractor stays inside the array exactly when the array is non-empty and holds a
      slot for every key, the condition `ArgumentsToPairs` requires. */
  lemma AsWrittenSafeExactly(ts: seq<string>, capacity: nat)
    ensures (forall k :: 0 <= k < |AsWritten(ts, capacity).writes| ==> AsWritten(ts, capacity).writes[k] < capacity)
      <==> 1 <= capacity && KeyCount(ts) <= capacity
  {
    if 1 <= capacity && KeyCount(ts) <= capacity {
      AsWrittenInBounds(ts, capacity);
    } else {
      AsWrittenOverrun(ts, capacity);
    }
  }

  /** "--a --b" with one slot: slot 0 is cleared and gets key a, then the second key is
      written to slot 1, and 2 pairs are reported. */
  lemma OverrunExample()
    ensures AsWritten(["--a", "--b"], 1) == Trace([0, 0, 1], 2)
  {
    var ts := ["--a", "--b"];
    assert ts[1..] == ["--b"] && ts[1..][1..] == [];
  }

  /** Three `--key value` extraction examples. */
  lemma Examples()
    ensures PairsOf(["--a", "1", "--b", "2"]) == [Pair(Some("a"), Some("1")), Pair(Some("b"), Some("2"))]
    ensures PairsOf(["v1", "--a", "v2"]) == [Pair(Some("a"), Some("v2"))]
    ensures PairsOf(["--a", "--b"]) == [Pair(Some("a"), None), Pair(Some("b"), None)]
  {
  }
}
