/** Which lines a dump prints, and when each key is printed once (runner/fcplay.c). */
module KvDump {
  import opened Wrappers
  import opened Bytes
  import opened KvTrace
  import opened KvRoundTrip

  // The keys a program names, each where it is first named.
  function FirstKeys(program: seq<Instruction>): seq<ByteString> {
    if program == [] then []
    else
      var n := |program| - 1;
      var front := FirstKeys(program[..n]);
      match StoreKey(program[n])
      case Some(k) => if k in front then front else front + [k]
      case None => front
  }

  // The first 64 of them.
  function Table(program: seq<Instruction>): seq<ByteString> {
    var keys := FirstKeys(program);
    if |keys| <= 64 then keys else keys[..64]
  }

  function LineAt(program: seq<Instruction>, state: Stored, i: nat): ByteString
    requires i < |program|
  {
    match StoreKey(program[i])
    case Some(k) => if k in state && k !in Table(program[..i]) then SetLine(k, state[k]) else []
    case None => []
  }

  function Lines(program: seq<Instruction>, state: Stored, i: nat): ByteString
    requires i <= |program|
    decreases |program| - i
  {
    if i == |program| then [] else LineAt(program, state, i) + Lines(program, state, i + 1)
  }

  lemma FirstKeysGrow(program: seq<Instruction>, i: nat)
    requires i < |program|
    ensures var front := FirstKeys(program[..i]);
            FirstKeys(program[..i + 1]) ==
              match StoreKey(program[i])
              case Some(k) => if k in front then front else front + [k]
              case None => front
  {
    hide StoreKey;
    assert program[..i + 1][..i] == program[..i];
  }

  lemma TableGrows(program: seq<Instruction>, i: nat)
    requires i < |program|
    ensures var table := Table(program[..i]);
            Table(program[..i + 1]) ==
              match StoreKey(program[i])
              case Some(k) => if k in table || |table| >= 64 then table else table + [k]
              case None => table
  {
    hide StoreKey, FirstKeys;
    FirstKeysGrow(program, i);
  }

  lemma {:induction false} DumpFrom(program: seq<Instruction>, state: Stored, i: nat)
    requires i <= |program|
    ensures Dumped(program[i..], state, Table(program[..i])) == Lines(program, state, i)
    decreases |program| - i
  {
    hide StoreKey, SetLine, Table;
    if i < |program| {
      assert program[i..][0] == program[i] && program[i..][1..] == program[i + 1..];
      TableGrows(program, i);
      DumpFrom(program, state, i + 1);
      var rest := Lines(program, state, i + 1);
      assert [] + rest == rest;
    }
  }

  /** A dump prints a line for exactly the instructions whose key is in the store and not among the
      first 64 keys named before them, in program order. */
  lemma DumpIsExact(program: seq<Instruction>, state: Stored)
    ensures Dumped(program, state, []) == Lines(program, state, 0)
  {
    hide Dumped, Lines;
    DumpFrom(program, state, 0);
    assert program[0..] == program && program[..0] == [];
  }

  // One line for each of the keys that is in the store.
  function LinesOf(keys: seq<ByteString>, state: Stored): ByteString {
    if keys == [] then []
    else (if keys[0] in state then SetLine(keys[0], state[keys[0]]) else []) + LinesOf(keys[1..], state)
  }

  lemma {:induction false} FirstKeysStay(program: seq<Instruction>, i: nat, j: nat)
    requires i <= j <= |program|
    ensures FirstKeys(program[..i]) <= FirstKeys(program[..j])
    decreases j
  {
    hide FirstKeys, StoreKey;
    if i < j {
      FirstKeysStay(program, i, j - 1);
      FirstKeysGrow(program, j - 1);
    }
  }

  // The instruction prints the key it names first, and nothing otherwise.
  lemma LineOfNewKey(program: seq<Instruction>, state: Stored, i: nat)
    requires i < |program| && |FirstKeys(program[..i])| <= 64
    ensures |FirstKeys(program[..i])| <= |FirstKeys(program[..i + 1])| <= |FirstKeys(program[..i])| + 1
    ensures var here, next := FirstKeys(program[..i]), FirstKeys(program[..i + 1]);
            LineAt(program, state, i)
              == if |next| == |here| then [] else if next[|here|] in state then SetLine(next[|here|], state[next[|here|]]) else []
  {
    hide FirstKeys, StoreKey, SetLine;
    FirstKeysGrow(program, i);
  }

  lemma LinesOfMore(keys: seq<ByteString>, state: Stored, n: nat)
    requires n < |keys|
    ensures LinesOf(keys[n..], state) == (if keys[n] in state then SetLine(keys[n], state[keys[n]]) else []) + LinesOf(keys[n + 1..], state)
  {
    hide SetLine;
    assert keys[n..][1..] == keys[n + 1..];
  }

  lemma {:induction false} OnceFrom(program: seq<Instruction>, state: Stored, i: nat)
    requires i <= |program| && |FirstKeys(program)| <= 64
    ensures |FirstKeys(program[..i])| <= |FirstKeys(program)|
    ensures Lines(program, state, i) == LinesOf(FirstKeys(program)[|FirstKeys(program[..i])|..], state)
    decreases |program| - i
  {
    hide FirstKeys, LineAt, SetLine;
    var all, here := FirstKeys(program), FirstKeys(program[..i]);
    assert program[..|program|] == program;
    FirstKeysStay(program, i, |program|);
    if i < |program| {
      hide LinesOf;
      var next := FirstKeys(program[..i + 1]);
      FirstKeysStay(program, i + 1, |program|);
      LineOfNewKey(program, state, i);
      OnceFrom(program, state, i + 1);
      if |next| > |here| {
        LinesOfMore(all, state, |here|);
        assert next[|here|] == all[|here|];
      } else {
        assert [] + Lines(program, state, i + 1) == Lines(program, state, i + 1);
      }
    }
  }

  /** A program that names at most 64 keys has each of them printed once, where it is first named,
      with its final value, however often it is stored. */
  lemma EachKeyIsPrintedOnce(program: seq<Instruction>, state: Stored)
    requires |FirstKeys(program)| <= 64
    ensures Dumped(program, state, []) == LinesOf(FirstKeys(program), state)
  {
    hide Dumped, Lines, LinesOf, FirstKeys;
    DumpIsExact(program, state);
    OnceFrom(program, state, 0);
    NoKeysFirst(program);
    assert FirstKeys(program)[0..] == FirstKeys(program);
  }

  lemma NoKeysFirst(program: seq<Instruction>)
    ensures FirstKeys(program[..0]) == []
  {}

  /** Those keys are all different, and they are the keys the program names. */
  lemma {:induction false} FirstKeysAreNamed(program: seq<Instruction>, key: ByteString)
    ensures forall i, j :: 0 <= i < j < |FirstKeys(program)| ==> FirstKeys(program)[i] != FirstKeys(program)[j]
    ensures key in FirstKeys(program) <==> NamedBy(program, key)
    decreases |program|
  {
    hide StoreKey, Names;
    if program != [] {
      var n := |program| - 1;
      FirstKeysAreNamed(program[..n], key);
      StoredKeysAreNamed(program[n], key);
      assert forall i :: 0 <= i < n ==> program[..n][i] == program[i];
    }
  }
}
