/** Removing PEM blocks from text that goes into error messages. */
module PemRedaction {
  import opened Wrappers

  const PLACEHOLDER := "<redacted-pem>"
  const LABELS: seq<string> := ["NEW CERTIFICATE REQUEST", "CERTIFICATE REQUEST", "PRIVATE KEY", "CERTIFICATE"]

  function Begin(name: string): string {
    "-----BEGIN " + name + "-----"
  }

  function End(name: string): string {
    "-----END " + name + "-----"
  }

  predicate OccursAt(text: string, pattern: string, i: nat) {
    i + |pattern| <= |text| && text[i..i + |pattern|] == pattern
  }

  predicate Contains(text: string, pattern: string) {
    exists i :: 0 <= i <= |text| && OccursAt(text, pattern, i)
  }

  /** `str::find`: the first occurrence from position i on. */
  function FindFrom(text: string, pattern: string, i: nat): (r: Option<nat>)
    requires i <= |text|
    ensures r.Some? ==> i <= r.value && OccursAt(text, pattern, r.value)
    ensures r.None? ==> forall k :: i <= k <= |text| ==> !OccursAt(text, pattern, k)
    decreases |text| - i
  {
    if OccursAt(text, pattern, i) then Some(i)
    else if i == |text| then None
    else FindFrom(text, pattern, i + 1)
  }

  /** One pass of the loop: the first block, or everything behind an unfinished one, is replaced. */
  function ReplaceFirst(text: string, begin: string, end: string, start: nat): (r: string)
    requires OccursAt(text, begin, start)
    requires |begin| > |PLACEHOLDER|
    ensures |r| < |text|
  {
    var closing := FindFrom(text, end, start + |begin|);
    var stop := if closing.Some? then closing.value + |end| else |text|;
    text[..start] + PLACEHOLDER + text[stop..]
  }

  /** Every pass shortens the text, so the loop ends. */
  function RedactLabel(text: string, name: string): string
    decreases |text|
  {
    var start := FindFrom(text, Begin(name), 0);
    if start.None? then text
    else RedactLabel(ReplaceFirst(text, Begin(name), End(name), start.value), name)
  }

  function RedactLabels(text: string, count: nat): string
    requires count <= |LABELS|
  {
    if count == 0 then text else RedactLabel(RedactLabels(text, count - 1), LABELS[count - 1])
  }

  /** The inner loop, for one label. */
  method RedactBlocks(text: string, name: string) returns (redacted: string)
    ensures redacted == RedactLabel(text, name)
  {
    hide FindFrom, Begin, End, ReplaceFirst, OccursAt;
    redacted := text;
    var begin, end := Begin(name), End(name);
    LongerThanPlaceholder(name);
    var start := FindFrom(redacted, begin, 0);
    while start.Some?
      invariant start == FindFrom(redacted, begin, 0)
      invariant RedactLabel(redacted, name) == RedactLabel(text, name)
      decreases |redacted|
    {
      redacted := ReplaceFirst(redacted, begin, end, start.value);
      start := FindFrom(redacted, begin, 0);
    }
  }

  lemma LongerThanPlaceholder(name: string)
    ensures |Begin(name)| > |PLACEHOLDER|
  {
  }

  /** `redact_pem_blocks`. */
  method RedactPemBlocks(text: string) returns (redacted: string)
    ensures redacted == RedactLabels(text, |LABELS|)
  {
    hide RedactLabel;
    redacted := text;
    for l := 0 to |LABELS|
      invariant redacted == RedactLabels(text, l)
    {
      redacted := RedactBlocks(redacted, LABELS[l]);
    }
  }

  // ----- No marker survives -----

  /** Longer than the placeholder and without its delimiters. */
  predicate IsMarker(m: string) {
    |m| > |PLACEHOLDER| && '<' !in m && '>' !in m
  }

  /** Putting the placeholder between two texts creates no marker across the seam. */
  lemma SeamMakesNoMarker(a: string, b: string, m: string, i: nat)
    requires IsMarker(m) && OccursAt(a + PLACEHOLDER + b, m, i)
    ensures OccursAt(a, m, i) || (i >= |a| + |PLACEHOLDER| && OccursAt(b, m, i - |a| - |PLACEHOLDER|))
  {
    var t := a + PLACEHOLDER + b;
    var first, last := |a|, |a| + |PLACEHOLDER| - 1;
    assert t[first] == '<' && t[last] == '>';
    if i + |m| <= |a| {
      assert t[i..i + |m|] == a[i..i + |m|];
    } else if i > last {
      assert t[i..i + |m|] == b[i - last - 1..i - last - 1 + |m|];
    }
  }

  lemma MarkerWasThere(text: string, begin: string, end: string, start: nat, m: string, i: nat)
    requires OccursAt(text, begin, start) && |begin| > |PLACEHOLDER| && IsMarker(m)
    requires OccursAt(ReplaceFirst(text, begin, end, start), m, i)
    ensures Contains(text, m)
  {
    hide FindFrom, IsMarker;
    var closing := FindFrom(text, end, start + |begin|);
    var stop := if closing.Some? then closing.value + |end| else |text|;
    SeamMakesNoMarker(text[..start], text[stop..], m, i);
    if OccursAt(text[..start], m, i) {
      assert text[..start][i..i + |m|] == text[i..i + |m|];
      assert OccursAt(text, m, i);
    } else {
      var k := i - start - |PLACEHOLDER|;
      assert text[stop..][k..k + |m|] == text[stop + k..stop + k + |m|];
      assert OccursAt(text, m, stop + k);
    }
  }

  /** A pass keeps every other marker absent. */
  lemma ReplaceKeepsAbsence(text: string, begin: string, end: string, start: nat, m: string)
    requires OccursAt(text, begin, start) && |begin| > |PLACEHOLDER|
    requires IsMarker(m) && !Contains(text, m)
    ensures !Contains(ReplaceFirst(text, begin, end, start), m)
  {
    hide ReplaceFirst, OccursAt;
    var r := ReplaceFirst(text, begin, end, start);
    if Contains(r, m) {
      var i :| 0 <= i <= |r| && OccursAt(r, m, i);
      MarkerWasThere(text, begin, end, start, m, i);
    }
  }

  lemma {:induction false} RedactLabelKeepsAbsence(text: string, name: string, m: string)
    requires IsMarker(m) && !Contains(text, m)
    ensures !Contains(RedactLabel(text, name), m)
    decreases |text|
  {
    var start := FindFrom(text, Begin(name), 0);
    if start.Some? {
      ReplaceKeepsAbsence(text, Begin(name), End(name), start.value, m);
      RedactLabelKeepsAbsence(ReplaceFirst(text, Begin(name), End(name), start.value), name, m);
    }
  }

  lemma {:induction false} RedactLabelRemoves(text: string, name: string)
    ensures !Contains(RedactLabel(text, name), Begin(name))
    decreases |text|
  {
    var start := FindFrom(text, Begin(name), 0);
    if start.Some? {
      RedactLabelRemoves(ReplaceFirst(text, Begin(name), End(name), start.value), name);
    }
  }

  lemma BeginIsMarker(k: nat)
    requires k < |LABELS|
    ensures IsMarker(Begin(LABELS[k]))
  {
  }

  /** The redacted text contains none of the four BEGIN markers: each loop removes its own, and no
      later replacement brings an earlier one back. */
  lemma {:induction false} NoMarkerSurvives(text: string, count: nat, k: nat)
    requires k < count <= |LABELS|
    ensures !Contains(RedactLabels(text, count), Begin(LABELS[k]))
    decreases count
  {
    hide RedactLabel, Contains, Begin;
    var before := RedactLabels(text, count - 1);
    if k == count - 1 {
      RedactLabelRemoves(before, LABELS[k]);
    } else {
      NoMarkerSurvives(text, count - 1, k);
      BeginIsMarker(k);
      RedactLabelKeepsAbsence(before, LABELS[count - 1], Begin(LABELS[k]));
    }
  }

  /** Text without markers is left as it is. */
  lemma {:induction false} CleanTextUnchanged(text: string, count: nat)
    requires count <= |LABELS|
    requires forall k :: 0 <= k < |LABELS| ==> !Contains(text, Begin(LABELS[k]))
    ensures RedactLabels(text, count) == text
    decreases count
  {
    hide Begin;
    if count > 0 {
      CleanTextUnchanged(text, count - 1);
      var start := FindFrom(text, Begin(LABELS[count - 1]), 0);
      assert !Contains(text, Begin(LABELS[count - 1]));
    }
  }

  // ----- The contents of a block disappear -----

  predicate FirstIn(text: string, pattern: string, i: nat) {
    OccursAt(text, pattern, i) && forall k :: 0 <= k < i ==> !OccursAt(text, pattern, k)
  }

  lemma {:induction false} FoundFirst(text: string, pattern: string, from: nat, i: nat)
    requires from <= i <= |text| && OccursAt(text, pattern, i)
    requires forall k :: from <= k < i ==> !OccursAt(text, pattern, k)
    ensures FindFrom(text, pattern, from) == Some(i)
  {
    var r := FindFrom(text, pattern, from);
    assert r.Some?;
    FirstFound(text, pattern, from, i);
  }

  lemma {:induction false} FirstFound(text: string, pattern: string, from: nat, i: nat)
    requires from <= i <= |text| && OccursAt(text, pattern, i)
    ensures FindFrom(text, pattern, from).Some? && FindFrom(text, pattern, from).value <= i
    decreases |text| - from
  {
    if !OccursAt(text, pattern, from) {
      FirstFound(text, pattern, from + 1, i);
    }
  }

  lemma OccursBehind(front: string, rest: string, pattern: string, k: nat)
    ensures OccursAt(front + rest, pattern, |front| + k) <==> OccursAt(rest, pattern, k)
  {
    if k + |pattern| <= |rest| {
      assert (front + rest)[|front| + k..|front| + k + |pattern|] == rest[k..k + |pattern|];
    }
  }

  lemma PartsOfText(a: string, begin: string, body: string, end: string, b: string)
    ensures
      var text := a + begin + body + end + b;
      && text == (a + begin) + (body + end + b) && text[..|a|] == a
      && text[|a + begin| + |body| + |end|..] == b
  {
    var front := a + begin + body + end;
    assert (front + b)[|front|..] == b;
  }

  /** What is cut out of a text with a block. */
  lemma BlockReplaced(text: string, a: string, begin: string, body: string, end: string, b: string)
    requires text == a + begin + body + end + b && |begin| > |PLACEHOLDER|
    requires FirstIn(text, begin, |a|) && FirstIn(body + end + b, end, |body|)
    ensures FindFrom(text, begin, 0) == Some(|a|)
    ensures ReplaceFirst(text, begin, end, |a|) == a + "<redacted-pem>" + b
  {
    hide OccursAt, FindFrom;
    var front, rest := a + begin, body + end + b;
    PartsOfText(a, begin, body, end, b);
    FoundFirst(text, begin, 0, |a|);
    EndBehind(text, front, rest, end, |body|);
  }

  /** The first END of the rest is the first one from there on. */
  lemma EndBehind(text: string, front: string, rest: string, end: string, k: nat)
    requires text == front + rest && k <= |rest| && FirstIn(rest, end, k)
    ensures FindFrom(text, end, |front|) == Some(|front| + k)
  {
    hide OccursAt, FindFrom;
    forall i | |front| <= i < |front| + k
      ensures !OccursAt(text, end, i)
    {
      OccursBehind(front, rest, end, i - |front|);
    }
    OccursBehind(front, rest, end, k);
    FoundFirst(text, end, |front|, |front| + k);
  }

  /** A text with a block: what stands between the first BEGIN and the first END behind it is replaced, whatever
      it is, and both markers with it. */
  lemma BlockDisappears(text: string, a: string, begin: string, body: string, end: string, b: string, name: string)
    requires begin == "-----BEGIN " + name + "-----" && end == "-----END " + name + "-----"
    requires text == a + begin + body + end + b
    requires FirstIn(text, begin, |a|) && FirstIn(body + end + b, end, |body|)
    ensures RedactLabel(text, name) == RedactLabel(a + "<redacted-pem>" + b, name)
  {
    assert begin == Begin(name) && end == End(name);
    LongerThanPlaceholder(name);
    hide OccursAt, FindFrom, Begin, End, ReplaceFirst, FirstIn;
    BlockReplaced(text, a, begin, body, end, b);
  }

  lemma RestReplaced(text: string, a: string, begin: string, body: string, end: string)
    requires text == a + begin + body && |begin| > |PLACEHOLDER| && end != ""
    requires FirstIn(text, begin, |a|) && !Contains(body, end)
    ensures FindFrom(text, begin, 0) == Some(|a|)
    ensures ReplaceFirst(text, begin, end, |a|) == a + "<redacted-pem>"
  {
    hide OccursAt, FindFrom;
    var front := a + begin;
    assert text == front + body;
    FoundFirst(text, begin, 0, |a|);
    var closing := FindFrom(text, end, |front|);
    if closing.Some? {
      OccursBehind(front, body, end, closing.value - |front|);
      OccursInside(body, end, closing.value - |front|);
      assert false;
    }
    assert text[..|a|] == a && text[|text|..] == "";
  }

  /** Without an END everything from the BEGIN on is replaced. */
  lemma UnfinishedDisappears(text: string, a: string, begin: string, body: string, end: string, name: string)
    requires begin == "-----BEGIN " + name + "-----" && end == "-----END " + name + "-----"
    requires text == a + begin + body && '<' !in name && '>' !in name
    requires FirstIn(text, begin, |a|) && !Contains(body, end)
    ensures RedactLabel(text, name) == a + "<redacted-pem>"
  {
    assert begin == Begin(name) && end == End(name);
    LongerThanPlaceholder(name);
    assert IsMarker(begin);
    hide OccursAt, FindFrom, Begin, End, ReplaceFirst, FirstIn, Contains;
    RestReplaced(text, a, begin, body, end);
    assert text == a + (begin + body);
    NoneInFront(a, begin + body, begin);
    NoneInNothing(begin);
    PlaceholderIsClean(a, "", begin);
    assert a + PLACEHOLDER + "" == a + "<redacted-pem>";
    CleanOfLabel(a + "<redacted-pem>", name);
  }

  lemma NoneInNothing(m: string)
    requires m != ""
    ensures !Contains("", m)
  {
  }

  lemma OccursInside(text: string, pattern: string, i: nat)
    requires OccursAt(text, pattern, i)
    ensures i + |pattern| <= |text|
  {
  }

  lemma OccursInFront(a: string, rest: string, pattern: string, i: nat)
    requires OccursAt(a, pattern, i)
    ensures OccursAt(a + rest, pattern, i)
  {
    assert (a + rest)[i..i + |pattern|] == a[i..i + |pattern|];
  }

  /** What first occurs behind a does not occur in it. */
  lemma NoneInFront(a: string, rest: string, pattern: string)
    requires pattern != "" && FirstIn(a + rest, pattern, |a|)
    ensures !Contains(a, pattern)
  {
    hide OccursAt;
    forall i | 0 <= i <= |a|
      ensures !OccursAt(a, pattern, i)
    {
      if OccursAt(a, pattern, i) {
        OccursInside(a, pattern, i);
        OccursInFront(a, rest, pattern, i);
        assert false;
      }
    }
  }

  lemma NoneInPrefix(a: string, rest: string, pattern: string)
    requires !Contains(a + rest, pattern)
    ensures !Contains(a, pattern)
  {
    hide OccursAt;
    if Contains(a, pattern) {
      var i :| 0 <= i <= |a| && OccursAt(a, pattern, i);
      OccursInFront(a, rest, pattern, i);
      assert false;
    }
  }

  lemma PlaceholderIsClean(a: string, b: string, m: string)
    requires IsMarker(m) && !Contains(a, m) && !Contains(b, m)
    ensures !Contains(a + PLACEHOLDER + b, m)
  {
    hide OccursAt, IsMarker;
    var t := a + PLACEHOLDER + b;
    forall i | 0 <= i <= |t|
      ensures !OccursAt(t, m, i)
    {
      NoOccurrence(a, m, i);
      if i >= |a| + |PLACEHOLDER| {
        NoOccurrence(b, m, i - |a| - |PLACEHOLDER|);
      }
      if OccursAt(t, m, i) {
        SeamMakesNoMarker(a, b, m, i);
        assert false;
      }
    }
  }

  lemma NoOccurrence(text: string, pattern: string, i: nat)
    requires !Contains(text, pattern)
    ensures !OccursAt(text, pattern, i)
  {
  }

  lemma CleanOfLabel(text: string, name: string)
    requires !Contains(text, Begin(name))
    ensures RedactLabel(text, name) == text
  {
    hide Begin;
    var start := FindFrom(text, Begin(name), 0);
    assert start.None?;
  }

  /** A text with one block is clean without it, and keeps it while other labels are redacted. */
  lemma OneBlockStep(text: string, a: string, begin: string, rest: string, b: string, own: bool, name: string)
    requires text == a + (begin + rest) && IsMarker(Begin(name)) && !Contains(b, Begin(name))
    requires if own then begin == Begin(name) && FirstIn(text, begin, |a|) else !Contains(text, Begin(name))
    ensures RedactLabel(a + PLACEHOLDER + b, name) == a + PLACEHOLDER + b
    ensures !own ==> RedactLabel(text, name) == text
  {
    hide RedactLabel, Contains, FirstIn, Begin, End, PLACEHOLDER;
    if own {
      NotEmpty(begin);
      NoneInFront(a, begin + rest, begin);
    } else {
      CleanOfLabel(text, name);
      NoneInPrefix(a, begin + rest, Begin(name));
    }
    PlaceholderIsClean(a, b, Begin(name));
    CleanOfLabel(a + PLACEHOLDER + b, name);
  }

  lemma NotEmpty(m: string)
    requires IsMarker(m)
    ensures m != ""
  {
  }

  /** A text with one block, of any label: its contents are gone, everything around it stays. */
  lemma OneBlockRedacted(text: string, a: string, begin: string, body: string, end: string, b: string, j: nat)
    requires j < |LABELS| && begin == "-----BEGIN " + LABELS[j] + "-----" && end == "-----END " + LABELS[j] + "-----"
    requires text == a + begin + body + end + b
    requires FirstIn(text, begin, |a|) && FirstIn(body + end + b, end, |body|)
    requires forall l :: 0 <= l < |LABELS| && l != j ==> !Contains(text, Begin(LABELS[l]))
    requires forall l :: 0 <= l < |LABELS| ==> !Contains(b, Begin(LABELS[l]))
    ensures RedactLabels(text, 4) == a + "<redacted-pem>" + b
  {
    hide RedactLabel, RedactLabels, Contains, FirstIn, IsMarker, Begin, End, LABELS;
    BlockDisappears(text, a, begin, body, end, b, LABELS[j]);
    PartsOfText(a, begin, body, end, b);
    BeginIs(LABELS[j]);
    FourLabels();
    OneBlockSteps(text, a, begin, body + end + b, b, j, |LABELS|);
  }

  lemma BeginIs(name: string)
    ensures "-----BEGIN " + name + "-----" == Begin(name)
  {
  }

  lemma FourLabels()
    ensures |LABELS| == 4
    ensures LABELS[0] == "NEW CERTIFICATE REQUEST" && LABELS[1] == "CERTIFICATE REQUEST"
    ensures LABELS[2] == "PRIVATE KEY" && LABELS[3] == "CERTIFICATE"
  {
  }

  lemma {:induction false} OneBlockSteps(text: string, a: string, begin: string, rest: string, b: string, j: nat,
                                         count: nat)
    requires j < |LABELS| && count <= |LABELS| && begin == Begin(LABELS[j])
    requires text == a + begin + rest && FirstIn(text, begin, |a|)
    requires RedactLabel(text, LABELS[j]) == RedactLabel(a + PLACEHOLDER + b, LABELS[j])
    requires forall l :: 0 <= l < |LABELS| && l != j ==> !Contains(text, Begin(LABELS[l]))
    requires forall l :: 0 <= l < |LABELS| ==> !Contains(b, Begin(LABELS[l]))
    ensures RedactLabels(text, count) == if count <= j then text else a + PLACEHOLDER + b
    decreases count
  {
    hide RedactLabel, Contains, FirstIn, Begin, PLACEHOLDER, IsMarker;
    if count > 0 {
      var l := count - 1;
      OneBlockSteps(text, a, begin, rest, b, j, l);
      BeginIsMarker(l);
      assert text == a + (begin + rest);
      OneBlockStep(text, a, begin, rest, b, l == j, LABELS[l]);
    }
  }

  lemma MarkerNeeds(text: string, pattern: string, i: nat, k: nat)
    requires OccursAt(text, pattern, i) && k < |pattern|
    ensures i + k < |text| && text[i + k] == pattern[k]
  {
    assert text[i..i + |pattern|][k] == text[i + k];
  }

  /** A private key in an error text. */
  lemma PrivateKeyRedacted(text: string, begin: string, end: string)
    requires begin == "-----BEGIN " + "PRIVATE KEY" + "-----" && end == "-----END " + "PRIVATE KEY" + "-----"
    requires text == "x" + begin + "MIGH" + end + "y"
    ensures RedactLabels(text, 4) == "x" + "<redacted-pem>" + "y"
  {
    hide RedactLabels, Contains, FirstIn;
    OnlyPrivateKey(text, begin, end);
    KeyEnds("MIGH" + end + "y", end);
    assert LABELS[2] == "PRIVATE KEY";
    OneBlockRedacted(text, "x", begin, "MIGH", end, "y", 2);
  }

  lemma KeyEnds(rest: string, end: string)
    requires end == "-----END " + "PRIVATE KEY" + "-----" && rest == "MIGH" + end + "y"
    ensures FirstIn(rest, end, 4)
    ensures forall l :: 0 <= l < |LABELS| ==> !Contains("y", Begin(LABELS[l]))
  {
    assert rest[4..4 + |end|] == end;
    forall k | 0 <= k < 4
      ensures !OccursAt(rest, end, k)
    {
      if OccursAt(rest, end, k) {
        MarkerNeeds(rest, end, k, 0);
        assert false;
      }
    }
  }

  lemma OnlyPrivateKey(text: string, begin: string, end: string)
    requires begin == "-----BEGIN " + "PRIVATE KEY" + "-----" && end == "-----END " + "PRIVATE KEY" + "-----"
    requires text == "x" + begin + "MIGH" + end + "y"
    ensures FirstIn(text, begin, 1)
    ensures forall l :: 0 <= l < |LABELS| && l != 2 ==> !Contains(text, Begin(LABELS[l]))
  {
    hide Begin;
    assert text[1..1 + |begin|] == begin;
    OnlyOneB(text, begin, end);
    if OccursAt(text, begin, 0) {
      MarkerNeeds(text, begin, 0, 0);
    }
    forall l, k | 0 <= l < |LABELS| && l != 2 && 0 <= k <= |text|
      ensures !OccursAt(text, Begin(LABELS[l]), k)
    {
      LabelLetters(l);
      NoOtherMarker(text, Begin(LABELS[l]), k);
    }
  }

  lemma NoOtherMarker(text: string, m: string, k: nat)
    requires |text| > 12 && text[12] == 'P' && forall i :: 0 <= i < |text| && text[i] == 'B' ==> i == 6
    requires |m| > 11 && m[5] == 'B' && m[11] != 'P'
    ensures !OccursAt(text, m, k)
  {
    hide OccursAt;
    if OccursAt(text, m, k) {
      MarkerNeeds(text, m, k, 5);
      MarkerNeeds(text, m, k, 11);
      assert false;
    }
  }

  lemma LabelLetters(l: nat)
    requires l < |LABELS|
    ensures var m := Begin(LABELS[l]); |m| > 11 && m[5] == 'B' && (l != 2 ==> m[11] != 'P')
  {
  }

  /** The letter that all markers have at one place stands in the text once. */
  lemma OnlyOneB(text: string, begin: string, end: string)
    requires begin == "-----BEGIN " + "PRIVATE KEY" + "-----" && end == "-----END " + "PRIVATE KEY" + "-----"
    requires text == "x" + begin + "MIGH" + end + "y"
    ensures |text| > 12 && text[12] == 'P' && forall k :: 0 <= k < |text| && text[k] == 'B' ==> k == 6
  {
    var front, back := "x" + "-----BEGIN ", "PRIVATE KEY" + "-----" + "MIGH" + end + "y";
    assert text == front + back;
    assert 'B' !in "PRIVATE KEY" && 'B' !in "-----" && 'B' !in "MIGH" && 'B' !in "-----END " && 'B' !in "y";
    assert 'B' !in end && 'B' !in back;
    assert forall k :: 0 <= k < |front| && front[k] == 'B' ==> k == 6;
    assert forall k :: |front| <= k < |text| ==> text[k] == back[k - |front|];
    assert back[0] == 'P';
  }
}
