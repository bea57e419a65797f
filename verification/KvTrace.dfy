/** The key-value trace: runner/fcplay.c prints what a run stored, server/internal/store/kv.go
    reads it back with a regular expression. */
module KvTrace {
  import opened Wrappers
  import opened Bytes

  const QUOTE: Byte := 34
  const APOSTROPHE: Byte := 39
  const SPACE: Byte := 32
  const DOT: Byte := 46
  const NEWLINE: Byte := 10
  const EQUALS: Byte := 61
  const BRACKET: Byte := 91

  const KEY_MAX: nat := 256
  const VALUE_DISPLAY: nat := 512
  const SEEN_MAX: nat := 64
  const OP_STORE: Byte := 7

  // ------------------------------------------------------------------ the printer

  datatype Instruction = Instruction(opcode: Byte, arg: ByteString)

  // Final contents of the run's state store.
  type Stored = map<ByteString, ByteString>

  // A C string ends before its first NUL.
  function CString(b: ByteString): ByteString {
    if b == [] || b[0] == 0 then [] else [b[0]] + CString(b[1..])
  }

  predicate StartsWith(s: ByteString, prefix: ByteString) {
    |prefix| <= |s| && s[..|prefix|] == prefix
  }

  predicate IsSyntheticStoreKey(key: ByteString) {
    StartsWith(key, Ascii("on_error:")) || StartsWith(key, Ascii("__on_error."))
  }

  // The key an instruction stores under, unless it is no STORE, too long or synthetic.
  function StoreKey(ins: Instruction): Option<ByteString> {
    if ins.opcode != OP_STORE || |ins.arg| >= KEY_MAX then None
    else
      var key := if ins.arg == [] then Ascii("last_token") else CString(ins.arg);
      if IsSyntheticStoreKey(key) then None else Some(key)
  }

  function SanitizedByte(c: Byte): Byte {
    if c == QUOTE then APOSTROPHE else if c < 32 || c == 127 then SPACE else c
  }

  function Sanitized(b: ByteString): (s: ByteString)
    ensures |s| == |b|
  {
    seq(|b|, i requires 0 <= i < |b| => SanitizedByte(b[i]))
  }

  // What a value looks like in the trace.
  function Display(value: ByteString): ByteString {
    if |value| > VALUE_DISPLAY then Sanitized(value[..VALUE_DISPLAY]) + [DOT, DOT, DOT] else Sanitized(value)
  }

  // One fc_log line at level INFO.
  function LogLine(message: ByteString): ByteString {
    Ascii("[flowcode:INFO] ") + (message + [NEWLINE])
  }

  function SetMessage(key: ByteString, shown: ByteString): ByteString {
    Ascii("store set key = ") + ([QUOTE] + (key + ([QUOTE] + (Ascii(" value = ") + ([QUOTE] + (shown + [QUOTE]))))))
  }

  function SetLine(key: ByteString, value: ByteString): ByteString {
    LogLine(SetMessage(key, Display(value)))
  }

  // The lines dumped for a program, given the keys already in the bounded table.
  function Dumped(program: seq<Instruction>, state: Stored, seen: seq<ByteString>): ByteString {
    if program == [] then []
    else
      match StoreKey(program[0])
      case None => Dumped(program[1..], state, seen)
      case Some(key) =>
        if key in seen then Dumped(program[1..], state, seen)
        else
          (if key in state then SetLine(key, state[key]) else [])
          + Dumped(program[1..], state, if |seen| < SEEN_MAX then seen + [key] else seen)
  }

  class Trace {
    var text: ByteString

    method LogStoreSet(key: ByteString, value: ByteString)
      modifies this
      ensures text == old(text) + SetLine(key, value)
    {
      var vbuf := new Byte[VALUE_DISPLAY + 8];
      var limit := if |value| > VALUE_DISPLAY then VALUE_DISPLAY else |value|;
      var n := 0;
      for i := 0 to limit
        invariant text == old(text)
        invariant n == i && vbuf[..n] == Sanitized(value[..i])
      {
        var ch := value[i];
        if ch == QUOTE {
          ch := APOSTROPHE;
        } else if ch < 32 || ch == 127 {
          ch := SPACE;
        }
        vbuf[n] := ch;
        n := n + 1;
        assert vbuf[..n] == vbuf[..i] + [ch];
        assert Sanitized(value[..i + 1]) == Sanitized(value[..i]) + [SanitizedByte(value[i])];
      }
      ghost var shown := Sanitized(value[..limit]);
      if |value| > limit {
        vbuf[n], vbuf[n + 1], vbuf[n + 2] := DOT, DOT, DOT;
        assert vbuf[..n + 3] == vbuf[..n] + [DOT, DOT, DOT];
        n := n + 3;
      } else {
        assert value[..limit] == value;
      }
      var message := SetMessage(key, vbuf[..n]);
      assert message == SetMessage(key, Display(value)) by {
        assert vbuf[..n] == Display(value);
      }
      text := text + LogLine(message);
    }

    method DumpStores(program: seq<Instruction>, state: Stored)
      modifies this
      ensures text == old(text) + Dumped(program, state, [])
    {
      hide SetLine, StoreKey;
      var seen := new ByteString[SEEN_MAX](_ => []);
      var seenCount := 0;
      ghost var whole := text + Dumped(program, state, []);
      assert program[0..] == program && seen[..0] == [];
      for i := 0 to |program|
        invariant 0 <= seenCount <= SEEN_MAX
        invariant text + Dumped(program[i..], state, seen[..seenCount]) == whole
      {
        assert program[i..][0] == program[i] && program[i..][1..] == program[i + 1..];
        var stored := StoreTarget(program[i]);
        if stored.None? { continue; }
        var key := stored.value;
        var known := IsSeen(seen, seenCount, key);
        if known { continue; }
        ghost var table := seen[..seenCount];
        if seenCount < SEEN_MAX {
          seen[seenCount] := key;
          seenCount := seenCount + 1;
          assert seen[..seenCount] == table + [key];
        }
        if key in state {
          ConcatAssociates(text, SetLine(key, state[key]), Dumped(program[i + 1..], state, seen[..seenCount]));
          LogStoreSet(key, state[key]);
        }
      }
    }
  }

  method StoreTarget(ins: Instruction) returns (target: Option<ByteString>)
    ensures target == StoreKey(ins)
  {
    if ins.opcode != OP_STORE { return None; }
    var key: ByteString;
    if |ins.arg| == 0 {
      key := Ascii("last_token");
    } else {
      if |ins.arg| >= KEY_MAX { return None; }
      key := CString(ins.arg);
    }
    if IsSyntheticStoreKey(key) { return None; }
    return Some(key);
  }

  method IsSeen(seen: array<ByteString>, count: nat, key: ByteString) returns (found: bool)
    requires count <= seen.Length
    ensures found <==> key in seen[..count]
  {
    var j := 0;
    while j < count && seen[j] != key
      invariant 0 <= j <= count && key !in seen[..j]
    {
      j := j + 1;
    }
    if j < count {
      assert seen[..count][j] == key;
    }
    return j < count;
  }

  // ------------------------------------------------------------------ the regular expression

  // One letter of a case-insensitive literal; U+017F folds to s and U+212A to k.
  function Letter(s: ByteString, c: Byte): Option<ByteString>
    requires 97 <= c <= 122
  {
    if s != [] && (s[0] == c || s[0] == c - 32) then Some(s[1..])
    else if c == 115 && StartsWith(s, [0xC5, 0xBF]) then Some(s[2..])
    else if c == 107 && StartsWith(s, [0xE2, 0x84, 0xAA]) then Some(s[3..])
    else None
  }

  predicate Lower(w: ByteString) {
    forall i :: 0 <= i < |w| ==> 97 <= w[i] <= 122
  }

  function Word(s: ByteString, w: ByteString): Option<ByteString>
    requires Lower(w)
  {
    if w == [] then Some(s)
    else
      match Letter(s, w[0])
      case None => None
      case Some(rest) => Word(rest, w[1..])
  }

  predicate IsSpace(c: Byte) {
    c == 9 || c == 10 || c == 12 || c == 13 || c == 32
  }

  // \s*
  function Spaces(s: ByteString): (r: ByteString)
    ensures |r| <= |s|
  {
    if s != [] && IsSpace(s[0]) then Spaces(s[1..]) else s
  }

  // \s+
  function SomeSpaces(s: ByteString): Option<ByteString> {
    if s != [] && IsSpace(s[0]) then Some(Spaces(s[1..])) else None
  }

  function One(s: ByteString, c: Byte): Option<ByteString> {
    if s != [] && s[0] == c then Some(s[1..]) else None
  }

  // ([^"]*)" after an opening quote
  function UntilQuote(s: ByteString): Option<(ByteString, ByteString)> {
    if s == [] then None
    else if s[0] == QUOTE then Some(([], s[1..]))
    else
      match UntilQuote(s[1..])
      case None => None
      case Some((head, rest)) => Some(([s[0]] + head, rest))
  }

  // \s*=\s*"([^"]*)"
  function Assigned(s: ByteString): Option<(ByteString, ByteString)> {
    match One(Spaces(s), EQUALS)
    case None => None
    case Some(afterEquals) =>
      match One(Spaces(afterEquals), QUOTE)
      case None => None
      case Some(open) => UntilQuote(open)
  }

  // word\s+
  function SpacedWord(s: ByteString, w: ByteString): Option<ByteString>
    requires Lower(w)
  {
    match Word(s, w)
    case None => None
    case Some(rest) => SomeSpaces(rest)
  }

  // A match at the very start of s: the two captures and what follows. Every piece is followed
  // by one it cannot overlap, so the greedy reading is the only one.
  function Match(s: ByteString): (m: Option<(ByteString, ByteString, ByteString)>)
  {
    match SpacedWord(s, Ascii("store"))
    case None => None
    case Some(s1) =>
      match SpacedWord(s1, Ascii("set"))
      case None => None
      case Some(s2) => MatchPair(s2)
  }

  function MatchPair(s: ByteString): Option<(ByteString, ByteString, ByteString)> {
    match Word(s, Ascii("key"))
    case None => None
    case Some(s1) =>
      match Assigned(s1)
      case None => None
      case Some((key, s2)) =>
        match SomeSpaces(s2)
        case None => None
        case Some(s3) =>
          match Word(s3, Ascii("value"))
          case None => None
          case Some(s4) =>
            match Assigned(s4)
            case None => None
            case Some((value, rest)) => Some((key, value, rest))
  }

  lemma {:induction false} WordShrinks(s: ByteString, w: ByteString)
    requires Lower(w)
    ensures Word(s, w).Some? ==> |Word(s, w).value| + |w| <= |s|
    decreases |w|
  {
    if w != [] && Letter(s, w[0]).Some? {
      WordShrinks(Letter(s, w[0]).value, w[1..]);
    }
  }

  lemma {:induction false} UntilQuoteShrinks(s: ByteString)
    requires UntilQuote(s).Some?
    ensures |UntilQuote(s).value.1| < |s| && QUOTE !in UntilQuote(s).value.0
    decreases |s|
  {
    if s[0] != QUOTE {
      UntilQuoteShrinks(s[1..]);
    }
  }

  lemma AssignedShrinks(s: ByteString)
    requires Assigned(s).Some?
    ensures |Assigned(s).value.1| <= |s| && QUOTE !in Assigned(s).value.0
  {
    hide UntilQuote;
    UntilQuoteShrinks(One(Spaces(One(Spaces(s), EQUALS).value), QUOTE).value);
  }

  lemma MatchPairShrinks(s: ByteString)
    requires MatchPair(s).Some?
    ensures |MatchPair(s).value.2| <= |s| && QUOTE !in MatchPair(s).value.0 && QUOTE !in MatchPair(s).value.1
  {
    hide Word, Assigned;
    WordShrinks(s, Ascii("key"));
    var s1 := Word(s, Ascii("key")).value;
    AssignedShrinks(s1);
    var s3 := SomeSpaces(Assigned(s1).value.1).value;
    WordShrinks(s3, Ascii("value"));
    var s4 := Word(s3, Ascii("value")).value;
    AssignedShrinks(s4);
  }

  lemma MatchShrinks(s: ByteString)
    requires Match(s).Some?
    ensures |Match(s).value.2| < |s| && QUOTE !in Match(s).value.0 && QUOTE !in Match(s).value.1
  {
    hide Word, MatchPair;
    WordShrinks(s, Ascii("store"));
    var s1 := SpacedWord(s, Ascii("store")).value;
    WordShrinks(s1, Ascii("set"));
    MatchPairShrinks(SpacedWord(s1, Ascii("set")).value);
  }

  // Leftmost, non-overlapping matches; the last value of a key wins.
  function Extracted(s: ByteString, writes: map<ByteString, ByteString>): map<ByteString, ByteString>
    decreases |s|
  {
    if s == [] then writes
    else
      match Match(s)
      case Some((key, value, rest)) =>
        MatchShrinks(s);
        Extracted(rest, writes[key := value])
      case None => Extracted(s[1..], writes)
  }

  method ExtractStoreSets(trace: ByteString) returns (writes: map<ByteString, ByteString>)
    ensures writes == Extracted(trace, map[])
  {
    writes := map[];
    var rest := trace;
    while rest != []
      invariant Extracted(rest, writes) == Extracted(trace, map[])
      decreases |rest|
    {
      var m := Match(rest);
      match m {
        case Some((key, value, after)) =>
          MatchShrinks(rest);
          writes := writes[key := value];
          rest := after;
        case None =>
          rest := rest[1..];
      }
    }
  }
}
