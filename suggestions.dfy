/**
  Turning the language model's reply into a list of commit-message
  candidates: the normalizer, the line-based fallback and the two-tier
  parser that picks between a structured decode and the fallback.
 */
module Suggestions {
  import opened Wrappers
  import opened Text

  datatype ParseError =
    | EmptyResponse   // "empty response from model"
    | CouldNotParse   // "could not parse suggestions"

  /** No string occurs twice. */
  predicate Distinct(xs: seq<string>) {
    forall i, j :: 0 <= i < j < |xs| ==> xs[i] != xs[j]
  }

  /** Every entry is non-empty and has no white space at its ends. */
  predicate Clean(xs: seq<string>) {
    forall k :: 0 <= k < |xs| ==> xs[k] != "" && Trimmed(xs[k])
  }

  /** Each input trimmed, position by position. */
  function Trims(xs: seq<string>): (r: seq<string>)
    ensures |r| == |xs|
    ensures forall k :: 0 <= k < |xs| ==> r[k] == TrimSpace(xs[k])
  {
    seq(|xs|, k requires 0 <= k < |xs| => TrimSpace(xs[k]))
  }

  /** The index at which `x` first occurs in `s`. */
  function FirstIndex(s: seq<string>, x: string): (k: nat)
    requires x in s
    ensures k < |s| && s[k] == x && x !in s[..k]
    decreases |s|
  {
    if s[0] == x then 0
    else
      var k := 1 + FirstIndex(s[1..], x);
      assert s[..k] == [s[0]] + s[1..][..k - 1];
      k
  }

  /** The normalized list of messages: the inputs trimmed, blanks dropped
      and later duplicates dropped, the first occurrence winning. It is
      defined on prefixes, one input at a time, in input order. */
  function Normalize(msgs: seq<string>): (r: seq<string>)
    ensures |r| <= |msgs|
    ensures Clean(r)
    ensures Distinct(r)
    decreases |msgs|
  {
    if msgs == [] then []
    else
      var prev := Normalize(msgs[..|msgs| - 1]);
      var m := TrimSpace(msgs[|msgs| - 1]);
      if m == "" || m in prev then prev else prev + [m]
  }

  /** The loop that fills the output and the `seen` map, one input at a time. */
  method NormalizeMessages(msgs: seq<string>) returns (out: seq<string>)
    ensures out == Normalize(msgs)
  {
    out := [];
    var seen: map<string, bool> := map[];
    for i := 0 to |msgs|
      invariant out == Normalize(msgs[..i])
      invariant forall m :: m in seen <==> m in out
      invariant forall m :: m in seen ==> seen[m]
    {
      assert msgs[..i + 1][..i] == msgs[..i];
      var m := TrimSpace(msgs[i]);
      if m == "" || (m in seen && seen[m]) {
        continue;
      }
      seen := seen[m := true];
      out := out + [m];
    }
    assert msgs[..|msgs|] == msgs;
  }

  lemma TrimsSnoc(msgs: seq<string>)
    requires msgs != []
    ensures Trims(msgs) == Trims(msgs[..|msgs| - 1]) + [TrimSpace(msgs[|msgs| - 1])]
  {
    var a, b := Trims(msgs), Trims(msgs[..|msgs| - 1]) + [TrimSpace(msgs[|msgs| - 1])];
    assert |a| == |b|;
    forall k | 0 <= k < |a| ensures a[k] == b[k] {
      if k < |msgs| - 1 {
        assert msgs[..|msgs| - 1][k] == msgs[k];
      }
    }
  }

  /** A string is in the normalized list exactly when it is non-empty and
      some input trims to it. */
  lemma {:induction false} NormalizeMembers(msgs: seq<string>, x: string)
    ensures x in Normalize(msgs) <==> x != "" && x in Trims(msgs)
    decreases |msgs|
  {
    if msgs != [] {
      NormalizeMembers(msgs[..|msgs| - 1], x);
      TrimsSnoc(msgs);
    }
  }

  /** Any index where `x` occurs with no earlier occurrence is its first index. */
  lemma FirstIndexUnique(s: seq<string>, x: string, k: nat)
    requires k < |s| && s[k] == x && x !in s[..k]
    ensures FirstIndex(s, x) == k
  {
  }

  lemma FirstIndexSnoc(s: seq<string>, y: string, x: string)
    requires x in s
    ensures FirstIndex(s + [y], x) == FirstIndex(s, x)
  {
    var k := FirstIndex(s, x);
    assert (s + [y])[..k] == s[..k];
    FirstIndexUnique(s + [y], x, k);
  }

  lemma FirstIndexNew(s: seq<string>, x: string)
    requires x !in s
    ensures FirstIndex(s + [x], x) == |s|
  {
  }

  /** Every entry of `r` occurs in `t`, and the entries of `r` come in the
      order of their first occurrences in `t`. */
  predicate OrderedBy(r: seq<string>, t: seq<string>) {
    forall p, q :: 0 <= p < q < |r| ==>
      r[p] in t && r[q] in t && FirstIndex(t, r[p]) < FirstIndex(t, r[q])
  }

  /** One step of the normalizer keeps the order: appending a string not yet
      seen puts it after every entry already kept. */
  lemma OrderedByStep(prev: seq<string>, t: seq<string>, m: string)
    requires OrderedBy(prev, t)
    requires forall x :: x in prev <==> x != "" && x in t
    ensures OrderedBy(if m == "" || m in prev then prev else prev + [m], t + [m])
  {
    var r := if m == "" || m in prev then prev else prev + [m];
    forall p, q | 0 <= p < q < |r|
      ensures r[p] in t + [m] && r[q] in t + [m] && FirstIndex(t + [m], r[p]) < FirstIndex(t + [m], r[q])
    {
      assert r[p] == prev[p];
      FirstIndexSnoc(t, m, r[p]);
      if q < |prev| {
        assert r[q] == prev[q];
        FirstIndexSnoc(t, m, r[q]);
      } else {
        // r[q] is the newly kept m, which does not occur in t
        FirstIndexNew(t, m);
      }
    }
  }

  /** The normalized list keeps input order: of two of its entries, the one
      listed first occurs first among the trimmed inputs. */
  lemma {:induction false} NormalizeOrder(msgs: seq<string>)
    ensures OrderedBy(Normalize(msgs), Trims(msgs))
    decreases |msgs|
  {
    if msgs != [] {
      var init := msgs[..|msgs| - 1];
      NormalizeOrder(init);
      TrimsSnoc(msgs);
      forall x ensures x in Normalize(init) <==> x != "" && x in Trims(init) {
        NormalizeMembers(init, x);
      }
      OrderedByStep(Normalize(init), Trims(init), TrimSpace(msgs[|msgs| - 1]));
    }
  }

  lemma OrderedLastAgree(r1: seq<string>, r2: seq<string>, t: seq<string>)
    requires r1 != [] && r2 != []
    requires forall x :: x in r1 <==> x in r2
    requires OrderedBy(r1, t) && OrderedBy(r2, t)
    ensures r1[|r1| - 1] == r2[|r2| - 1]
  {
    assert r1[|r1| - 1] in r2 && r2[|r2| - 1] in r1;
  }

  lemma OrderedDropLast(r: seq<string>, t: seq<string>)
    requires r != [] && Distinct(r) && OrderedBy(r, t)
    ensures Distinct(r[..|r| - 1]) && OrderedBy(r[..|r| - 1], t)
    ensures forall x :: x in r[..|r| - 1] <==> x in r && x != r[|r| - 1]
  {
    var p := r[..|r| - 1];
    assert r == p + [r[|r| - 1]];
    forall x | x in r && x != r[|r| - 1] ensures x in p {
      var k :| 0 <= k < |r| && r[k] == x;
      assert p[k] == x;
    }
    forall x | x in p ensures x != r[|r| - 1] {
      var k :| 0 <= k < |p| && p[k] == x;
      assert r[k] == x;
    }
  }

  lemma SameMembersEmpty(r1: seq<string>, r2: seq<string>)
    requires forall x :: x in r1 <==> x in r2
    ensures r1 == [] <==> r2 == []
  {
    if r1 != [] {
      assert r1[0] in r2;
    }
    if r2 != [] {
      assert r2[0] in r1;
    }
  }

  /** Two duplicate-free lists with the same entries, both in the order of
      first occurrence in `t`, are the same list. */
  lemma {:induction false} OrderedUnique(r1: seq<string>, r2: seq<string>, t: seq<string>)
    requires Distinct(r1) && Distinct(r2)
    requires forall x :: x in r1 <==> x in r2
    requires OrderedBy(r1, t) && OrderedBy(r2, t)
    ensures r1 == r2
    decreases |r1|
  {
    SameMembersEmpty(r1, r2);
    if r1 != [] {
      OrderedLastAgree(r1, r2, t);
      OrderedDropLast(r1, t);
      OrderedDropLast(r2, t);
      var p1, p2 := r1[..|r1| - 1], r2[..|r2| - 1];
      forall x ensures x in p1 <==> x in p2 {
        assert x in p1 <==> x in r1 && x != r1[|r1| - 1];
        assert x in p2 <==> x in r2 && x != r2[|r2| - 1];
      }
      OrderedUnique(p1, p2, t);
      assert r1 == p1 + [r1[|r1| - 1]] && r2 == p2 + [r2[|r2| - 1]];
    }
  }

  /** The normalized list is the only duplicate-free list holding exactly
      the non-empty trimmed inputs in the order they first occur. */
  lemma NormalizeUnique(msgs: seq<string>, r: seq<string>)
    requires Distinct(r)
    requires forall x :: x in r <==> x != "" && x in Trims(msgs)
    requires OrderedBy(r, Trims(msgs))
    ensures r == Normalize(msgs)
  {
    forall x ensures x in r <==> x in Normalize(msgs) {
      NormalizeMembers(msgs, x);
    }
    NormalizeOrder(msgs);
    OrderedUnique(r, Normalize(msgs), Trims(msgs));
  }

  /** A list that is already clean and free of duplicates normalizes to itself. */
  lemma {:induction false} NormalizeFixed(xs: seq<string>)
    requires Clean(xs) && Distinct(xs)
    ensures Normalize(xs) == xs
    decreases |xs|
  {
    if xs != [] {
      var init := xs[..|xs| - 1];
      NormalizeFixed(init);
      TrimSpaceOfTrimmed(xs[|xs| - 1]);
      assert xs == init + [xs[|xs| - 1]];
    }
  }

  /** Normalizing twice is normalizing once. */
  lemma NormalizeIdempotent(msgs: seq<string>)
    ensures Normalize(Normalize(msgs)) == Normalize(msgs)
  {
    NormalizeFixed(Normalize(msgs));
  }

  /** Worked example: `["a", " a ", "b"]` normalizes to `["a", "b"]`. */
  lemma NormalizeExample()
    ensures Normalize(["a", " a ", "b"]) == ["a", "b"]
  {
    var xs := ["a", " a ", "b"];
    NormalizeExamplePrefix();
    TrimSpaceOfTrimmed("b");
    assert xs[..2] == ["a", " a "];
  }

  lemma NormalizeExamplePrefix()
    ensures Normalize(["a", " a "]) == ["a"]
  {
    var xs := ["a", " a "];
    TrimSpaceOfTrimmed("a");
    TrimPaddedA();
    assert xs[..1] == ["a"] && ["a"][..0] == [];
    assert Normalize(["a"]) == ["a"];
  }

  lemma TrimPaddedA()
    ensures TrimSpace(" a ") == "a"
  {
    assert TrimLeft(" a ", IsSpace) == "a " by {
      assert " a "[1..] == "a ";
      assert !IsSpace('a');
    }
    assert TrimRight("a ", IsSpace) == "a" by {
      assert "a "[..1] == "a";
    }
  }

  /** The cutset `"-0123456789. "` that `strings.TrimLeft` strips from the
      start of a fallback line: list bullets, digits, dots and spaces. */
  predicate IsBullet(c: char) {
    c == '-' || ('0' <= c <= '9') || c == '.' || c == ' '
  }

  /** One line of the fallback: numbering and bullets stripped, then trimmed. */
  function StripBullet(line: string): (r: string)
    ensures Trimmed(r) && |r| <= |line|
  {
    TrimSpace(TrimLeft(line, IsBullet))
  }

  /** The fallback's result for a list of lines: the non-empty stripped lines,
      in order. */
  function Fallback(lines: seq<string>): (r: seq<string>)
    ensures |r| <= |lines|
    ensures Clean(r)
    decreases |lines|
  {
    if lines == [] then []
    else
      var prev := Fallback(lines[..|lines| - 1]);
      var m := StripBullet(lines[|lines| - 1]);
      if m == "" then prev else prev + [m]
  }

  /** The fallback treats lines independently and keeps their order. */
  lemma {:induction false} FallbackAppend(a: seq<string>, b: seq<string>)
    ensures Fallback(a + b) == Fallback(a) + Fallback(b)
    decreases |b|
  {
    if b != [] {
      var b' := b[..|b| - 1];
      FallbackAppend(a, b');
      assert (a + b)[..|a + b| - 1] == a + b';
      assert (a + b)[|a + b| - 1] == b[|b| - 1];
    } else {
      assert a + b == a;
    }
  }

  /** Each line stripped, position by position. */
  function Strips(lines: seq<string>): (r: seq<string>)
    ensures |r| == |lines|
    ensures forall k :: 0 <= k < |lines| ==> r[k] == StripBullet(lines[k])
  {
    seq(|lines|, k requires 0 <= k < |lines| => StripBullet(lines[k]))
  }

  lemma StripsSnoc(lines: seq<string>)
    requires lines != []
    ensures Strips(lines) == Strips(lines[..|lines| - 1]) + [StripBullet(lines[|lines| - 1])]
  {
    var a, b := Strips(lines), Strips(lines[..|lines| - 1]) + [StripBullet(lines[|lines| - 1])];
    assert |a| == |b|;
    forall k | 0 <= k < |a| ensures a[k] == b[k] {
      if k < |lines| - 1 {
        assert lines[..|lines| - 1][k] == lines[k];
      }
    }
  }

  /** A string is a fallback entry exactly when it is non-empty and some line
      strips to it. */
  lemma {:induction false} FallbackMembers(lines: seq<string>, x: string)
    ensures x in Fallback(lines) <==> x != "" && x in Strips(lines)
    decreases |lines|
  {
    if lines != [] {
      FallbackMembers(lines[..|lines| - 1], x);
      StripsSnoc(lines);
    }
  }

  /** The reply is used as structured output when the decode yields at least
      one message. */
  predicate Structured(content: string, decode: string -> Option<seq<string>>) {
    var d := decode(content);
    d.Some? && |d.value| > 0
  }

  /** `parseSuggestions` as a function: `decode` stands for the JSON decode of
      `{"messages": [...]}`, `None` when the text is not such an object. */
  function Parse(content: string, decode: string -> Option<seq<string>>): (r: Result<seq<string>, ParseError>)
    ensures r.Success? ==> Clean(r.value) && Distinct(r.value)
    ensures r.Success? && !Structured(TrimSpace(content), decode) ==> r.value != []
  {
    var c := TrimSpace(content);
    if c == "" then Failure(EmptyResponse)
    else if Structured(c, decode) then Success(Normalize(decode(c).value))
    else
      var lines := Fallback(Split(c, '\n'));
      if lines == [] then Failure(CouldNotParse) else Success(Normalize(lines))
  }

  /** The fallback loop: strips every line and keeps the non-empty ones. */
  method CollectLines(lines: seq<string>) returns (msgs: seq<string>)
    ensures msgs == Fallback(lines)
  {
    msgs := [];
    for i := 0 to |lines|
      invariant msgs == Fallback(lines[..i])
    {
      assert lines[..i + 1][..i] == lines[..i];
      var line := StripBullet(lines[i]);
      if line != "" {
        msgs := msgs + [line];
      }
    }
    assert lines[..|lines|] == lines;
  }

  /** The parser: trim, try the structured decode, otherwise collect the
      stripped non-empty lines; either way normalize. */
  method ParseSuggestions(content: string, decode: string -> Option<seq<string>>)
    returns (r: Result<seq<string>, ParseError>)
    ensures r == Parse(content, decode)
  {
    var c := TrimSpace(content);
    if c == "" {
      return Failure(EmptyResponse);
    }
    var payload := decode(c);
    if payload.Some? && |payload.value| > 0 {
      var out := NormalizeMessages(payload.value);
      return Success(out);
    }
    var msgs := CollectLines(Split(c, '\n'));
    if |msgs| == 0 {
      return Failure(CouldNotParse);
    }
    var out := NormalizeMessages(msgs);
    return Success(out);
  }

  /** The reply is rejected as empty exactly when it is all white space. */
  lemma ParseEmpty(content: string, decode: string -> Option<seq<string>>)
    ensures Parse(content, decode) == Failure(EmptyResponse) <==> Blank(content)
  {
    TrimSpaceBlank(content);
  }

  /** A structured reply with messages yields exactly their normalization. */
  lemma ParseStructured(content: string, decode: string -> Option<seq<string>>)
    requires !Blank(content)
    requires Structured(TrimSpace(content), decode)
    ensures Parse(content, decode) == Success(Normalize(decode(TrimSpace(content)).value))
  {
    TrimSpaceBlank(content);
  }

  /** A structured reply whose messages are all blank is accepted with no
      suggestions; the caller rejects that list separately. */
  lemma ParseStructuredAllBlank(content: string, decode: string -> Option<seq<string>>)
    requires !Blank(content)
    requires Structured(TrimSpace(content), decode)
    requires forall k :: 0 <= k < |decode(TrimSpace(content)).value| ==> Blank(decode(TrimSpace(content)).value[k])
    ensures Parse(content, decode) == Success([])
  {
    TrimSpaceBlank(content);
    var ms := decode(TrimSpace(content)).value;
    if Normalize(ms) != [] {
      NormalizeMembers(ms, Normalize(ms)[0]);
      forall k | 0 <= k < |ms| ensures Trims(ms)[k] == "" {
        TrimSpaceBlank(ms[k]);
      }
      assert false;
    }
  }

  /** Every line strips to nothing. */
  predicate NothingToKeep(lines: seq<string>) {
    forall x :: x in Strips(lines) ==> x == ""
  }

  /** The fallback finds nothing exactly when every line strips to nothing. */
  lemma FallbackEmpty(lines: seq<string>)
    ensures Fallback(lines) == [] <==> NothingToKeep(lines)
  {
    var f := Fallback(lines);
    forall x | x in Strips(lines) && x != "" ensures f != [] {
      FallbackMembers(lines, x);
    }
    if f != [] {
      FallbackMembers(lines, f[0]);
    }
  }

  /** Parsing fails with "could not parse" exactly when the reply is not
      blank, does not decode to messages, and every line strips to nothing. */
  lemma ParseCouldNotParse(content: string, decode: string -> Option<seq<string>>)
    ensures Parse(content, decode) == Failure(CouldNotParse) <==>
      && !Blank(content)
      && !Structured(TrimSpace(content), decode)
      && NothingToKeep(Split(TrimSpace(content), '\n'))
  {
    TrimSpaceBlank(content);
    FallbackEmpty(Split(TrimSpace(content), '\n'));
  }

  /** Without a structured reply, a successful parse is never empty; its
      entries are the distinct non-empty stripped lines, nothing else, in
      order of first appearance. */
  lemma ParseFallback(content: string, decode: string -> Option<seq<string>>, r: seq<string>)
    requires !Structured(TrimSpace(content), decode)
    requires Parse(content, decode) == Success(r)
    ensures r != []
    ensures forall x :: x in r <==> x != "" && x in Strips(Split(TrimSpace(content), '\n'))
    ensures OrderedBy(r, Fallback(Split(TrimSpace(content), '\n')))
  {
    var lines := Split(TrimSpace(content), '\n');
    var f := Fallback(lines);
    assert r == Normalize(f);
    TrimsOfClean(f);
    NormalizeMembers(f, f[0]);
    forall x ensures x in r <==> x != "" && x in Strips(lines) {
      NormalizeMembers(f, x);
      FallbackMembers(lines, x);
    }
    NormalizeOrder(f);
  }

  lemma TrimsOfClean(xs: seq<string>)
    requires Clean(xs)
    ensures Trims(xs) == xs
  {
    forall k | 0 <= k < |xs| ensures Trims(xs)[k] == xs[k] {
      TrimSpaceOfTrimmed(xs[k]);
    }
  }

  /** Worked example: a structured reply with two messages. */
  lemma ParseStructuredExample(decode: string -> Option<seq<string>>)
    requires decode("{\"messages\":[\"feat: add x\",\"fix: bug y\"]}") == Some(["feat: add x", "fix: bug y"])
    ensures Parse("{\"messages\":[\"feat: add x\",\"fix: bug y\"]}", decode) == Success(["feat: add x", "fix: bug y"])
  {
    var content := "{\"messages\":[\"feat: add x\",\"fix: bug y\"]}";
    TrimSpaceOfTrimmed(content);
    var ms := ["feat: add x", "fix: bug y"];
    assert Clean(ms) by {
      TrimSpaceOfTrimmed(ms[0]);
    }
    NormalizeFixed(ms);
  }

  /** Worked example: a numbered plain-text list that does not decode. */
  lemma ParseFallbackExample(decode: string -> Option<seq<string>>)
    requires !Structured("1. add x\n2. fix y", decode)
    ensures Parse("1. add x\n2. fix y", decode) == Success(["add x", "fix y"])
  {
    var content := "1. add x\n2. fix y";
    TrimSpaceOfTrimmed(content);
    assert TrimSpace(content) == content;
    SplitExample();
    FallbackExample();
    var lines := Fallback(Split(content, '\n'));
    assert lines == ["add x", "fix y"];
    NormalizeFixed(lines);
  }

  lemma FallbackExample()
    ensures Fallback(["1. add x", "2. fix y"]) == ["add x", "fix y"]
  {
    var lines := ["1. add x", "2. fix y"];
    StripExample();
    assert lines[..1] == ["1. add x"] && lines[..1][..0] == [];
  }

  lemma SplitExample()
    ensures Split("1. add x\n2. fix y", '\n') == ["1. add x", "2. fix y"]
  {
    var lines := ["1. add x", "2. fix y"];
    assert Join(lines, '\n') == "1. add x\n2. fix y";
    SplitJoin(lines, '\n');
  }

  lemma StripExample()
    ensures StripBullet("1. add x") == "add x"
    ensures StripBullet("2. fix y") == "fix y"
  {
    assert TrimLeft("add x", IsBullet) == "add x";
    assert TrimLeft(" add x", IsBullet) == "add x" by { assert " add x"[1..] == "add x"; }
    assert TrimLeft(". add x", IsBullet) == "add x" by { assert ". add x"[1..] == " add x"; }
    assert TrimLeft("1. add x", IsBullet) == "add x" by { assert "1. add x"[1..] == ". add x"; }
    assert TrimLeft("fix y", IsBullet) == "fix y";
    assert TrimLeft(" fix y", IsBullet) == "fix y" by { assert " fix y"[1..] == "fix y"; }
    assert TrimLeft(". fix y", IsBullet) == "fix y" by { assert ". fix y"[1..] == " fix y"; }
    assert TrimLeft("2. fix y", IsBullet) == "fix y" by { assert "2. fix y"[1..] == ". fix y"; }
    TrimSpaceOfTrimmed("add x");
    TrimSpaceOfTrimmed("fix y");
  }
}
