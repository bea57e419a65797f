/** The bounded operational log of server/internal/applogs/applogs.go, down to the text of the
    file. A log entry is rendered by an encoder as one line and read back by its decoder; writes
    succeed and are whole. */
module AppLog {
  import opened Wrappers

  const TRIM_AT: nat := 5000
  const KEEP_LINES: nat := 2500

  // ------------------------------------------------------------------ text

  // strings.Split(s, "\n")
  function Split(s: string): (lines: seq<string>)
    ensures |lines| >= 1
  {
    if s == "" then [""]
    else
      var rest := Split(s[1..]);
      if s[0] == '\n' then [""] + rest else [[s[0]] + rest[0]] + rest[1..]
  }

  // strings.Join(lines, "\n")
  function Join(lines: seq<string>): string {
    if lines == [] then "" else if |lines| == 1 then lines[0] else lines[0] + "\n" + Join(lines[1..])
  }

  function TrimNewlines(s: string): string {
    if s != "" && s[|s| - 1] == '\n' then TrimNewlines(s[..|s| - 1]) else s
  }

  predicate IsSpace(c: char) {
    c in "\t\n\U{b}\U{c}\r \U{85}\U{a0}\U{1680}\U{2028}\U{2029}\U{202f}\U{205f}\U{3000}" || '\U{2000}' <= c <= '\U{200a}'
  }

  function TrimSpace(s: string): string {
    if s == "" then ""
    else if IsSpace(s[0]) then TrimSpace(s[1..])
    else if IsSpace(s[|s| - 1]) then TrimSpace(s[..|s| - 1])
    else s
  }

  // A missing file has no text.
  function ReadLines(file: Option<string>): seq<string> {
    match file
    case None => []
    case Some(raw) =>
      var text := TrimNewlines(raw);
      if text == "" then [] else Split(text)
  }

  // ------------------------------------------------------------------ well-formed files

  predicate IsLine(l: string) {
    l != "" && '\n' !in l && TrimSpace(l) == l
  }

  predicate AreLines(ls: seq<string>) {
    forall i :: 0 <= i < |ls| ==> IsLine(ls[i])
  }

  // A file of whole lines.
  function Text(ls: seq<string>): string {
    if ls == [] then "" else Text(ls[..|ls| - 1]) + (ls[|ls| - 1] + "\n")
  }

  lemma {:induction false} SplitStep(l: string, rest: string)
    requires '\n' !in l
    ensures Split(l + ("\n" + rest)) == [l] + Split(rest)
    decreases |l|
  {
    if l == "" {
      assert l + ("\n" + rest) == "\n" + rest;
      assert ("\n" + rest)[1..] == rest;
    } else {
      assert (l + ("\n" + rest))[1..] == l[1..] + ("\n" + rest);
      SplitStep(l[1..], rest);
      assert l == [l[0]] + l[1..];
    }
  }

  lemma {:induction false} SplitOne(l: string)
    requires '\n' !in l
    ensures Split(l) == [l]
    decreases |l|
  {
    if l != "" {
      SplitOne(l[1..]);
      assert l == [l[0]] + l[1..];
    }
  }

  lemma TextOfMore(ls: seq<string>, rest: string)
    requires ls != []
    ensures Text(ls) + rest == Text(ls[..|ls| - 1]) + ((ls[|ls| - 1] + "\n") + rest)
  {
    var last := ls[|ls| - 1] + "\n";
    ConcatAssociates(Text(ls[..|ls| - 1]), last, rest);
  }

  lemma {:induction false} TextFront(ls: seq<string>, rest: string)
    requires ls != []
    ensures Text(ls) + rest == ls[0] + ("\n" + (Text(ls[1..]) + rest))
    decreases |ls|
  {
    var n := |ls| - 1;
    var last := ls[n] + "\n";
    TextOfMore(ls, rest);
    if n == 0 {
      assert ls[..0] == [] && ls[1..] == [];
      assert Text([]) + (last + rest) == last + rest && Text([]) + rest == rest;
      ConcatAssociates(ls[0], "\n", rest);
    } else {
      hide Text;
      TextFront(ls[..n], last + rest);
      assert ls[..n][1..] == ls[1..][..n - 1];
      TextOfMore(ls[1..], rest);
    }
  }

  lemma NoNewlineIn(l: string)
    requires IsLine(l)
    ensures '\n' !in l
  {}

  lemma {:induction false} SplitText(ls: seq<string>, rest: string)
    requires AreLines(ls)
    ensures Split(Text(ls) + rest) == ls + Split(rest)
    decreases |ls|
  {
    hide Split, IsLine;
    if ls == [] {
      assert Text(ls) + rest == rest;
    } else {
      TextFront(ls, rest);
      NoNewlineIn(ls[0]);
      SplitStep(ls[0], Text(ls[1..]) + rest);
      SplitText(ls[1..], rest);
    }
  }

  lemma {:induction false} TextIsJoin(ls: seq<string>)
    requires ls != []
    ensures Text(ls) == Join(ls) + "\n"
    decreases |ls|
  {
    TextFront(ls, "");
    assert Text(ls) + "" == Text(ls) && Text(ls[1..]) + "" == Text(ls[1..]);
    if |ls| > 1 {
      TextIsJoin(ls[1..]);
      assert ls[0] + ("\n" + (Join(ls[1..]) + "\n")) == (ls[0] + "\n" + Join(ls[1..])) + "\n";
    }
  }

  /** Reading a file of whole lines back, with its trailing newline trimmed, gives those lines. */
  lemma ReadsBackLines(ls: seq<string>)
    requires AreLines(ls)
    ensures ReadLines(Some(Text(ls))) == ls
  {
    hide Split, TrimSpace, TrimNewlines;
    if ls == [] {
      TrimsTo("", "");
    } else {
      var n := |ls| - 1;
      var last := ls[n];
      var text := Text(ls[..n]) + last;
      ConcatAssociates(Text(ls[..n]), last, "\n");
      assert last[|last| - 1] in last;
      TrimsTo(text, text + "\n");
      SplitText(ls[..n], last);
      SplitOne(last);
      assert ls == ls[..n] + [last];
    }
  }

  lemma TrimsTo(text: string, raw: string)
    requires (text == raw == "") || (text != "" && text[|text| - 1] != '\n' && raw == text + "\n")
    ensures TrimNewlines(raw) == text
  {
    assert raw != "" ==> raw[..|raw| - 1] == text;
  }

  // ------------------------------------------------------------------ the logger

  function Newest(ls: seq<string>, n: nat): seq<string> {
    if |ls| > n then ls[|ls| - n..] else ls
  }

  // The lines of the file after one more append.
  function Appended(ls: seq<string>, l: string): seq<string> {
    var all := ls + [l];
    if |all| > TRIM_AT then Newest(all, KEEP_LINES) else all
  }

  function TextOf(file: Option<string>): string {
    match file case None => "" case Some(s) => s
  }

  class Logger {
    var file: Option<string>
    var lines: nat
    ghost var content: seq<string>

    // The file is whole lines, none if it is missing, and their number is known.
    ghost predicate Valid()
      reads this
    {
      AreLines(content) && TextOf(file) == Text(content) && lines == |content|
    }

    // Any file will do; `ls` are its lines when it is whole lines.
    constructor (file: Option<string>, ghost ls: seq<string>)
      ensures this.file == file && lines == |ReadLines(file)|
      ensures AreLines(ls) && TextOf(file) == Text(ls) ==> Valid() && content == ls
    {
      this.file := file;
      this.lines := |ReadLines(file)|;
      this.content := ls;
      new;
      if AreLines(ls) {
        ReadsBackLines(ls);
      }
    }

    method Append(raw: string)
      requires Valid() && IsLine(raw)
      modifies this
      ensures Valid() && content == Appended(old(content), raw)
      ensures lines <= TRIM_AT
    {
      file := Some(TextOf(file) + (raw + "\n"));
      content := content + [raw];
      lines := lines + 1;
      if lines > TRIM_AT {
        Trim();
      }
    }

    method Trim()
      requires Valid() && file.Some? && content != []
      modifies this
      ensures Valid() && content == Newest(old(content), KEEP_LINES)
    {
      ReadsBackLines(content);
      var kept := ReadLines(file);
      if |kept| > KEEP_LINES {
        kept := kept[|kept| - KEEP_LINES..];
      }
      TextIsJoin(kept);
      file := Some(Join(kept) + "\n");
      lines := |kept|;
      content := kept;
    }
  }

  // ------------------------------------------------------------------ reading the newest entries

  function Decoded<E>(line: string, decode: string -> Option<E>): Option<E> {
    var l := TrimSpace(line);
    if l == "" then None else decode(l)
  }

  predicate AllSpace(s: string) {
    forall i :: 0 <= i < |s| ==> IsSpace(s[i])
  }

  lemma {:induction false} TrimsBlanks(s: string)
    requires AllSpace(s)
    ensures TrimSpace(s) == ""
    decreases |s|
  {
    hide IsSpace;
    if s != "" {
      TrimsBlanks(s[1..]);
    }
  }

  lemma {:induction false} TrimsPadding(before: string, l: string, after: string)
    requires AllSpace(before) && AllSpace(after) && l != "" && TrimSpace(l) == l
    ensures TrimSpace(before + l + after) == l
    decreases |before| + |after|
  {
    hide IsSpace;
    var s := before + l + after;
    TrimmedEnds(l);
    if before != "" {
      assert s[1..] == before[1..] + l + after;
      TrimsPadding(before[1..], l, after);
    } else if after != "" {
      var n := |after| - 1;
      assert s[..|s| - 1] == before + l + after[..n];
      assert s[0] == l[0] && s[|s| - 1] == after[n];
      TrimsPadding(before, l, after[..n]);
    } else {
      assert s == l;
    }
  }

  lemma {:induction false} TrimsToShorter(s: string)
    ensures |TrimSpace(s)| <= |s|
    decreases |s|
  {
    hide IsSpace;
    if s != "" && IsSpace(s[0]) {
      TrimsToShorter(s[1..]);
    } else if s != "" && IsSpace(s[|s| - 1]) {
      TrimsToShorter(s[..|s| - 1]);
    }
  }

  lemma TrimmedEnds(l: string)
    requires l != "" && TrimSpace(l) == l
    ensures !IsSpace(l[0]) && !IsSpace(l[|l| - 1])
  {
    hide IsSpace;
    TrimsToShorter(l[1..]);
    TrimsToShorter(l[..|l| - 1]);
  }

  /** Blanks around a line make no difference, and a line of blanks is no entry. */
  lemma PaddingIsIgnored<E>(before: string, l: string, after: string, decode: string -> Option<E>)
    requires AllSpace(before) && AllSpace(after) && IsLine(l)
    ensures Decoded(before + l + after, decode) == decode(l)
    ensures Decoded(before, decode) == None
  {
    hide TrimSpace, IsSpace;
    TrimsPadding(before, l, after);
    TrimsBlanks(before);
  }

  // At most n entries from the end of the lines, newest first, skipping what is no entry.
  function TailOf<E>(lines: seq<string>, n: nat, decode: string -> Option<E>): seq<E>
    decreases |lines|
  {
    if n == 0 || lines == [] then []
    else
      var k := |lines| - 1;
      match Decoded(lines[k], decode)
      case Some(e) => [e] + TailOf(lines[..k], n - 1, decode)
      case None => TailOf(lines[..k], n, decode)
  }

  method Tail<E>(file: Option<string>, n: nat, decode: string -> Option<E>) returns (out: seq<E>)
    ensures out == if file.Some? then TailOf(Split(file.value), n, decode) else []
  {
    hide *;
    out := [];
    if file.None? {
      return;
    }
    var lines := Split(file.value);
    var i := |lines| - 1;
    assert lines[..|lines|] == lines;
    while i >= 0 && |out| < n
      invariant -1 <= i < |lines| && |out| <= n
      invariant out + TailOf(lines[..i + 1], n - |out|, decode) == TailOf(lines, n, decode)
      decreases i
    {
      TailStep(lines, i, n - |out|, decode);
      var e := DecodeLine(lines[i], decode);
      if e.Some? {
        ConcatAssociates(out, [e.value], TailOf(lines[..i], n - |out| - 1, decode));
        out := out + [e.value];
      }
      i := i - 1;
    }
    TailEnds(lines[..i + 1], n - |out|, decode);
  }

  lemma TailStep<E>(lines: seq<string>, i: nat, n: nat, decode: string -> Option<E>)
    requires i < |lines| && n > 0
    ensures TailOf(lines[..i + 1], n, decode) ==
              match Decoded(lines[i], decode)
              case Some(e) => [e] + TailOf(lines[..i], n - 1, decode)
              case None => TailOf(lines[..i], n, decode)
  {
    assert lines[..i + 1][..i] == lines[..i];
  }

  lemma TailEnds<E>(lines: seq<string>, n: nat, decode: string -> Option<E>)
    requires n == 0 || lines == []
    ensures TailOf(lines, n, decode) == []
  {}

  method DecodeLine<E>(line: string, decode: string -> Option<E>) returns (e: Option<E>)
    ensures e == Decoded(line, decode)
  {
    var l := TrimSpace(line);
    if l == "" {
      return None;
    }
    return decode(l);
  }

  // The decoder undoes the encoder, and every encoding is one line.
  ghost predicate Codec<E(!new)>(encode: E -> string, decode: string -> Option<E>) {
    forall e :: IsLine(encode(e)) && decode(encode(e)) == Some(e)
  }

  function Encoded<E>(es: seq<E>, encode: E -> string): (ls: seq<string>)
    ensures |ls| == |es| && forall i :: 0 <= i < |es| ==> ls[i] == encode(es[i])
  {
    seq(|es|, i requires 0 <= i < |es| => encode(es[i]))
  }

  function Reversed<E>(s: seq<E>): (r: seq<E>)
    ensures |r| == |s|
  {
    if s == [] then [] else [s[|s| - 1]] + Reversed(s[..|s| - 1])
  }

  function NewestOf<E>(es: seq<E>, n: nat): seq<E> {
    if |es| > n then es[|es| - n..] else es
  }

  lemma EncodingDecodes<E(!new)>(e: E, encode: E -> string, decode: string -> Option<E>)
    requires Codec(encode, decode)
    ensures IsLine(encode(e)) && Decoded(encode(e), decode) == Some(e)
  {}

  lemma NewestOfFront<E>(es: seq<E>, n: nat)
    requires n > 0 && es != []
    ensures Reversed(NewestOf(es, n)) == [es[|es| - 1]] + Reversed(NewestOf(es[..|es| - 1], n - 1))
  {
    var kept := NewestOf(es, n);
    assert kept[..|kept| - 1] == NewestOf(es[..|es| - 1], n - 1);
  }

  lemma {:induction false} TailOfEntries<E(!new)>(es: seq<E>, n: nat, encode: E -> string, decode: string -> Option<E>)
    requires Codec(encode, decode)
    ensures TailOf(Encoded(es, encode), n, decode) == Reversed(NewestOf(es, n))
    decreases |es|
  {
    hide Codec, Decoded, Reversed, NewestOf, Encoded;
    if n > 0 && es != [] {
      var k := |es| - 1;
      var ls := Encoded(es, encode);
      assert ls[..k] == Encoded(es[..k], encode);
      EncodingDecodes(es[k], encode, decode);
      TailOfEntries(es[..k], n - 1, encode, decode);
      NewestOfFront(es, n);
    } else {
      NothingNewest(es, n);
    }
  }

  lemma NothingNewest<E>(es: seq<E>, n: nat)
    requires n == 0 || es == []
    ensures Reversed(NewestOf(es, n)) == []
  {}

  // Reading a file of entries, possibly followed by a torn line that does not decode.
  lemma TailOfFile<E(!new)>(es: seq<E>, torn: string, n: nat, encode: E -> string, decode: string -> Option<E>)
    requires Codec(encode, decode) && '\n' !in torn && Decoded(torn, decode) == None
    ensures TailOf(Split(Text(Encoded(es, encode)) + torn), n, decode) == Reversed(NewestOf(es, n))
  {
    hide Split, TrimSpace, Reversed, NewestOf;
    var ls := Encoded(es, encode);
    forall i | 0 <= i < |ls|
      ensures IsLine(ls[i])
    {
      assert ls[i] == encode(es[i]);
    }
    SplitText(ls, torn);
    SplitOne(torn);
    assert (ls + [torn])[..|ls|] == ls;
    TailOfEntries(es, n, encode, decode);
  }

  // ------------------------------------------------------------------ histories

  // The lines of the file after a run of appends.
  function After(ls: seq<string>, appends: seq<string>): seq<string> {
    if appends == [] then ls else Appended(After(ls, appends[..|appends| - 1]), appends[|appends| - 1])
  }

  // The bounded file is an end of the untrimmed history, at least 2500 long unless it is all of it.
  ghost predicate Bounds(kept: seq<string>, all: seq<string>) {
    |kept| <= |all| && kept == all[|all| - |kept|..] && (|kept| >= 2500 || kept == all)
  }

  lemma AppendKeepsBounds(kept: seq<string>, all: seq<string>, l: string)
    requires Bounds(kept, all)
    ensures Bounds(Appended(kept, l), all + [l])
    ensures |Appended(kept, l)| <= 5000
  {
    var kept', all' := kept + [l], all + [l];
    assert kept' == all'[|all'| - |kept'|..] by { EndGrows(kept, all, l); }
    if |kept'| > TRIM_AT {
      EndOfEnd(all', |kept'|, KEEP_LINES);
    }
  }

  lemma EndGrows(kept: seq<string>, all: seq<string>, l: string)
    requires |kept| <= |all| && kept == all[|all| - |kept|..]
    ensures kept + [l] == (all + [l])[|all| - |kept|..]
  {}

  lemma EndOfEnd(all: seq<string>, k: nat, j: nat)
    requires j <= k <= |all|
    ensures all[|all| - k..][k - j..] == all[|all| - j..]
  {}

  lemma {:induction false} FileIsEndOfHistory(ls: seq<string>, appends: seq<string>)
    ensures Bounds(After(ls, appends), ls + appends)
    ensures appends != [] ==> |After(ls, appends)| <= 5000
    decreases |appends|
  {
    if appends == [] {
      assert ls + appends == ls;
    } else {
      var front, l := appends[..|appends| - 1], appends[|appends| - 1];
      hide Bounds, Appended;
      FileIsEndOfHistory(ls, front);
      assert ls + appends == (ls + front) + [l];
      AppendKeepsBounds(After(ls, front), ls + front, l);
    }
  }

  /** A trim happens on exactly the appends that find the file full at 5000 lines. */
  lemma TrimsPastTheMark(ls: seq<string>, l: string)
    ensures |Appended(ls, l)| < |ls| + 1 <==> |ls| >= 5000
  {}

  // Up to the mark, then round and round between 2500 and the mark.
  function LineCount(n: nat): nat {
    if n <= 5000 then n else 2500 + (n - 5001) % 2501
  }

  lemma AppendedLength(ls: seq<string>, l: string)
    ensures |Appended(ls, l)| == if |ls| + 1 > TRIM_AT then KEEP_LINES else |ls| + 1
  {}

  lemma NoLines()
    ensures LineCount(0) == 0
  {}

  lemma Round(m: nat)
    ensures var round := TRIM_AT - KEEP_LINES + 1;
            (m + 1) % round == if m % round + 1 == round then 0 else m % round + 1
  {
    var q, r := m / 2501, m % 2501;
    assert m + 1 == q * 2501 + (r + 1);
  }

  lemma OneMoreLine(n: nat)
    ensures LineCount(n + 1) == if LineCount(n) + 1 > TRIM_AT then KEEP_LINES else LineCount(n) + 1
  {
    if n > TRIM_AT {
      Round(n - TRIM_AT - 1);
    }
  }

  /** The lines of a fresh log after n appends; after 5000 of them it really holds 5000. */
  lemma {:induction false} LinesAfter(appends: seq<string>)
    ensures |After([], appends)| == LineCount(|appends|)
    decreases |appends|
  {
    NoLines();
    if appends != [] {
      hide Appended, LineCount;
      var front, l := appends[..|appends| - 1], appends[|appends| - 1];
      LinesAfter(front);
      AppendedLength(After([], front), l);
      OneMoreLine(|front|);
    }
  }

  // ------------------------------------------------------------------ files of any shape

  function Newlines(s: string): nat {
    if s == "" then 0 else (if s[0] == '\n' then 1 else 0) + Newlines(s[1..])
  }

  lemma {:induction false} NewlinesAdd(a: string, b: string)
    ensures Newlines(a + b) == Newlines(a) + Newlines(b)
    decreases |a|
  {
    if a == "" {
      assert a + b == b;
    } else {
      assert (a + b)[1..] == a[1..] + b;
      NewlinesAdd(a[1..], b);
    }
  }

  lemma {:induction false} SplitCountsNewlines(s: string)
    ensures |Split(s)| == Newlines(s) + 1
    decreases |s|
  {
    if s != "" {
      SplitCountsNewlines(s[1..]);
    }
  }

  lemma {:induction false} NoNewlines(s: string)
    requires '\n' !in s
    ensures Newlines(s) == 0
    decreases |s|
  {
    if s != "" {
      NoNewlines(s[1..]);
    }
  }

  lemma {:induction false} TrimCounts(s: string)
    ensures var t := TrimNewlines(s);
            && |t| <= |s| && t == s[..|t|]
            && (t == "" || t[|t| - 1] != '\n')
            && (forall i :: |t| <= i < |s| ==> s[i] == '\n')
            && Newlines(s) == Newlines(t) + |s| - |t|
    decreases |s|
  {
    if s != "" && s[|s| - 1] == '\n' {
      var front := s[..|s| - 1];
      TrimCounts(front);
      assert s == front + "\n";
      NewlinesAdd(front, "\n");
    }
  }

  predicate EndsInOneNewline(s: string) {
    |s| >= 2 && s[|s| - 1] == '\n' && s[|s| - 2] != '\n'
  }

  /** The counter is the number of lines read back after an append, for any file at all, exactly
      when the file was empty or ended in a single newline behind some text: a torn last line and
      blank lines at the end are counted wrong until the next trim. */
  lemma CounterIsExact(text: string, l: string)
    requires IsLine(l)
    ensures |ReadLines(Some(text + (l + "\n")))| == |ReadLines(Some(text))| + 1 <==> text == "" || EndsInOneNewline(text)
  {
    hide Split, TrimNewlines, TrimSpace, Newlines;
    var t := TrimNewlines(text);
    TrimCounts(text);
    SplitCountsNewlines(t);
    LastLineRead(text, l);
    NewlinesAdd(text, l);
    NoNewlines(l);
    if t == "" {
      NoNewlines(t);
    } else if |text| == |t| + 1 {
      assert text[|text| - 2] == t[|t| - 1];
    } else if |text| > |t| + 1 {
      assert text[|text| - 2] == '\n';
    }
  }

  lemma LastLineRead(text: string, l: string)
    requires IsLine(l)
    ensures |ReadLines(Some(text + (l + "\n")))| == Newlines(text + l) + 1
  {
    hide Split, TrimNewlines, TrimSpace, Newlines;
    assert l[|l| - 1] in l;
    ConcatAssociates(text, l, "\n");
    TrimsTo(text + l, text + (l + "\n"));
    SplitCountsNewlines(text + l);
  }

  lemma NewestOfEnd<E>(all: seq<E>, k: nat, n: nat)
    requires k <= |all| && (n <= k || k == |all|)
    ensures NewestOf(all[|all| - k..], n) == NewestOf(all, n)
  {}

  /** After any history of appends on a well-formed file, the newest n entries read from the bounded
      file, for n up to 2500, are the newest n of the whole untrimmed history, newest first;
      a torn last line is skipped; and after an append the file holds at most 5000 lines. */
  lemma TailSeesWholeHistory<E(!new)>(
      start: seq<E>, appends: seq<E>, torn: string, n: nat, encode: E -> string, decode: string -> Option<E>)
    requires Codec(encode, decode) && n <= 2500 && '\n' !in torn && Decoded(torn, decode) == None
    ensures var file := After(Encoded(start, encode), Encoded(appends, encode));
            && TailOf(Split(Text(file) + torn), n, decode) == Reversed(NewestOf(start + appends, n))
            && (appends != [] ==> |file| <= 5000)
  {
    hide *;
    var file := After(Encoded(start, encode), Encoded(appends, encode));
    var all := start + appends;
    EncodedParts(start, appends, encode, |file|);
    FileIsEndOfHistory(Encoded(start, encode), Encoded(appends, encode));
    BoundsUnpacked(file, Encoded(all, encode));
    TailOfFile(all[|all| - |file|..], torn, n, encode, decode);
    NewestOfEnd(all, |file|, n);
  }

  lemma BoundsUnpacked(kept: seq<string>, all: seq<string>)
    requires Bounds(kept, all)
    ensures |kept| <= |all| && kept == all[|all| - |kept|..] && (|kept| >= 2500 || |kept| == |all|)
  {}

  lemma EncodedParts<E>(start: seq<E>, appends: seq<E>, encode: E -> string, k: nat)
    ensures Encoded(start, encode) + Encoded(appends, encode) == Encoded(start + appends, encode)
    ensures var all := start + appends;
            k <= |all| ==> Encoded(all[|all| - k..], encode) == Encoded(all, encode)[|all| - k..]
    ensures appends == [] <==> Encoded(appends, encode) == []
  {}
}
