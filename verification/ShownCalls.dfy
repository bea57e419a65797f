/** The text the bytecode table shows for a call, `name key=value key=value`, and what can be read
    back out of it. The text alone does not say where a name or a value ends. */
module ShownCalls {
  import opened Wrappers
  import opened Bytes
  import opened Disassembler

  const SPACE: Byte := 32
  const EQUALS: Byte := 61

  function Shown(name: ByteString, ps: Params): ByteString {
    name + ParamsText(ps)
  }

  // ------------------------------------------------------------------ a reader

  // What is in front of the first c, and what is behind it when there is one.
  function Cut(s: ByteString, c: Byte): (r: (ByteString, Option<ByteString>))
    ensures c !in r.0
    ensures match r.1 case Some(t) => |t| < |s| case None => true
  {
    if s == [] then ([], None)
    else if s[0] == c then ([], Some(s[1..]))
    else
      var (head, tail) := Cut(s[1..], c);
      ([s[0]] + head, tail)
  }

  function ReadParam(word: ByteString): Option<(ByteString, ByteString)> {
    match Cut(word, EQUALS)
    case (key, Some(value)) => Some((key, value))
    case (_, None) => None
  }

  function ReadParams(s: ByteString): Option<Params>
    decreases |s|
  {
    var (word, rest) := Cut(s, SPACE);
    match (ReadParam(word), rest)
    case (None, _) => None
    case (Some(p), None) => Some([p])
    case (Some(p), Some(more)) =>
      match ReadParams(more)
      case Some(ps) => Some([p] + ps)
      case None => None
  }

  function ReadCall(text: ByteString): Option<(ByteString, Params)> {
    match Cut(text, SPACE)
    case (name, None) => Some((name, []))
    case (name, Some(rest)) =>
      match ReadParams(rest)
      case Some(ps) => Some((name, ps))
      case None => None
  }

  predicate CleanParam(p: (ByteString, ByteString)) {
    SPACE !in p.0 && EQUALS !in p.0 && SPACE !in p.1
  }

  predicate Clean(name: ByteString, ps: Params) {
    SPACE !in name && forall i :: 0 <= i < |ps| ==> CleanParam(ps[i])
  }

  // ------------------------------------------------------------------ what the reader gives back

  lemma {:induction false} CutOnly(s: ByteString, c: Byte)
    requires c !in s
    ensures Cut(s, c) == (s, None)
    decreases |s|
  {
    if s != [] {
      CutOnly(s[1..], c);
      assert s == [s[0]] + s[1..];
    }
  }

  lemma {:induction false} CutFirst(a: ByteString, c: Byte, b: ByteString)
    requires c !in a
    ensures Cut(a + ([c] + b), c) == (a, Some(b))
    decreases |a|
  {
    var s := a + ([c] + b);
    if a == [] {
      assert s == [c] + b;
      assert s[1..] == b;
    } else {
      assert s[1..] == a[1..] + ([c] + b);
      CutFirst(a[1..], c, b);
      assert a == [a[0]] + a[1..];
    }
  }

  lemma {:induction false} CutParts(s: ByteString, c: Byte)
    ensures forall x :: x in Cut(s, c).0 || (Cut(s, c).1.Some? && x in Cut(s, c).1.value) ==> x in s
    decreases |s|
  {
    if s != [] && s[0] != c {
      CutParts(s[1..], c);
    }
  }

  lemma WordReadsClean(word: ByteString)
    requires SPACE !in word && ReadParam(word).Some?
    ensures CleanParam(ReadParam(word).value)
  {
    CutParts(word, EQUALS);
  }

  lemma {:induction false} ParamsReadClean(s: ByteString)
    requires ReadParams(s).Some?
    ensures forall i :: 0 <= i < |ReadParams(s).value| ==> CleanParam(ReadParams(s).value[i])
    decreases |s|
  {
    hide CleanParam, ReadParam;
    var (word, rest) := Cut(s, SPACE);
    WordReadsClean(word);
    if rest.Some? {
      ParamsReadClean(rest.value);
    }
  }

  lemma ParamReadsBack(p: (ByteString, ByteString))
    requires CleanParam(p)
    ensures ReadParam(p.0 + ([EQUALS] + p.1)) == Some(p) && SPACE !in p.0 + ([EQUALS] + p.1)
  {
    CutFirst(p.0, EQUALS, p.1);
  }

  // Behind the space in front of the first parameter.
  lemma {:induction false} ParamsReadBack(ps: Params)
    requires ps != [] && forall i :: 0 <= i < |ps| ==> CleanParam(ps[i])
    ensures ParamsText(ps) == [SPACE] + ParamsText(ps)[1..] && ReadParams(ParamsText(ps)[1..]) == Some(ps)
    decreases |ps|
  {
    hide CleanParam, ReadParam, Cut;
    var word, more := ps[0].0 + ([EQUALS] + ps[0].1), ParamsText(ps[1..]);
    ParamReadsBack(ps[0]);
    assert ParamsText(ps) == ([SPACE] + word) + more;
    ConcatAssociates([SPACE], word, more);
    assert ParamsText(ps)[1..] == word + more;
    if |ps| == 1 {
      assert ps[1..] == [] && more == [] && word + more == word;
      CutOnly(word, SPACE);
      assert ps == [ps[0]];
    } else {
      ParamsReadBack(ps[1..]);
      CutFirst(word, SPACE, more[1..]);
      assert ps == [ps[0]] + ps[1..];
    }
  }

  /** Reading the shown text at its spaces and equals signs gives the call back exactly when no
      name, key or value holds a space and no key an equals sign. */
  lemma ShownCallReadsBack(name: ByteString, ps: Params)
    ensures ReadCall(Shown(name, ps)) == Some((name, ps)) <==> Clean(name, ps)
  {
    hide CleanParam, ReadParams, ParamsText, Cut;
    var text := Shown(name, ps);
    if Clean(name, ps) {
      if ps == [] {
        NoParamsText();
        assert text == name;
        CutOnly(name, SPACE);
      } else {
        ParamsReadBack(ps);
        CutFirst(name, SPACE, ParamsText(ps)[1..]);
      }
    }
    if ReadCall(text) == Some((name, ps)) {
      var rest := Cut(text, SPACE).1;
      if rest.Some? {
        ParamsReadClean(rest.value);
      }
    }
  }

  /** From the blob to the text and back: what is shown for an assembled call or transform gives its
      name and parameters back exactly when they are clean. */
  lemma ShownCallIsRecoverable(op: Byte, name: ByteString, ps: Params, terminated: bool)
    requires op == 3 || op == 4
    requires NulFree(name) && NulFreeParams(ps) && EndsWell(ps, terminated)
    ensures var payload := name + (SeparatedParams(ps) + if terminated then [0] else []);
            ReadCall(PayloadText(op, payload)) == Some((name, ps)) <==> Clean(name, ps)
  {
    hide CallIn, ReadCall, Clean, SeparatedParams, ParamsText;
    var payload := name + (SeparatedParams(ps) + if terminated then [0] else []);
    CallIsRecoverable(name, ps, terminated);
    ShownCallReadsBack(name, ps);
    EmptyCall(payload);
  }

  lemma EmptyCall(payload: ByteString)
    ensures payload == [] ==> Shown(CallIn(payload).0, CallIn(payload).1) == []
  {}

  // ------------------------------------------------------------------ what the text cannot say

  predicate SpaceThenEquals(s: ByteString) {
    exists i, j :: 0 <= i < j < |s| && s[i] == SPACE && s[j] == EQUALS
  }

  // No other call of NUL-free strings is shown as the same text.
  ghost predicate SoleReading(name: ByteString, ps: Params) {
    forall n: ByteString, qs: Params :: NulFree(n) && NulFreeParams(qs) && Shown(n, qs) == Shown(name, ps) ==> n == name && qs == ps
  }

  lemma {:induction false} ParamsTextIsNulFree(ps: Params)
    requires NulFreeParams(ps)
    ensures NulFree(ParamsText(ps))
    decreases |ps|
  {
    if ps != [] {
      ParamsTextIsNulFree(ps[1..]);
    }
  }

  lemma ParamsShowSpaceThenEquals(name: ByteString, ps: Params)
    requires ps != []
    ensures SpaceThenEquals(Shown(name, ps))
  {
    hide ParamsText;
    var k, v, more := ps[0].0, ps[0].1, ParamsText(ps[1..]);
    ParamsTextFront(ps[0], ps[1..]);
    assert ps == [ps[0]] + ps[1..];
    var text := Shown(name, ps);
    assert text == name + (([SPACE] + (k + ([EQUALS] + v))) + more);
    assert text[|name|] == SPACE && text[|name| + 1 + |k|] == EQUALS;
  }

  lemma ShownAsOneName(name: ByteString)
    ensures Shown(name, []) == name
  {}

  lemma ShownAsOneParam(s: ByteString, i: nat, j: nat)
    requires i < j < |s| && s[i] == SPACE && s[j] == EQUALS
    ensures Shown(s[..i], [(s[i + 1..j], s[j + 1..])]) == s
  {
    hide ParamsText;
    var k, v := s[i + 1..j], s[j + 1..];
    ParamsTextFront((k, v), []);
    NoParamsText();
    assert [(k, v)] + [] == [(k, v)];
    assert s == s[..i] + ([SPACE] + (k + ([EQUALS] + v)));
  }

  /** The text stands for one call only exactly when that call has no parameters and its name does
      not look like it had any. */
  lemma ShownTextIsAmbiguous(name: ByteString, ps: Params)
    requires NulFree(name) && NulFreeParams(ps)
    ensures SoleReading(name, ps) <==> ps == [] && !SpaceThenEquals(name)
  {
    hide ParamsText, SpaceThenEquals;
    var text := Shown(name, ps);
    ShownAsOneName(text);
    ShownAsOneName(name);
    if ps != [] {
      ParamsTextIsNulFree(ps);
      assert NulFree(text) && Shown(text, []) == Shown(name, ps);
      assert NulFreeParams([]) && !SoleReading(name, ps);
    } else if SpaceThenEquals(name) {
      OtherReading(name);
    } else {
      forall n: ByteString, qs: Params | NulFree(n) && NulFreeParams(qs) && Shown(n, qs) == text
        ensures n == name && qs == ps
      {
        if qs != [] {
          ParamsShowSpaceThenEquals(n, qs);
        } else {
          ShownAsOneName(n);
        }
      }
    }
  }

  lemma OtherReading(name: ByteString)
    requires NulFree(name) && SpaceThenEquals(name)
    ensures !SoleReading(name, [])
  {
    hide ParamsText;
    var i, j :| 0 <= i < j < |name| && name[i] == SPACE && name[j] == EQUALS;
    ShownAsOneParam(name, i, j);
    ShownAsOneName(name);
    var qs := [(name[i + 1..j], name[j + 1..])];
    assert NulFree(name[..i]) && NulFreeParams(qs);
    assert Shown(name[..i], qs) == Shown(name, []);
  }
}
