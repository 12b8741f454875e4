/** The sample line of the Prometheus text exposition format,
    `name{key="value",...} number`, as the collector writes it (no escaping of
    label values), and a reader for it. The reader is the collector's inverse:
    reading back a rendered line gives the sample that was rendered. */
module Exposition {
  import opened Digits
  import opened Text

  datatype Option<+T> = None | Some(value: T)

  datatype Label = Label(key: string, value: string)

  datatype Sample = Sample(name: string, labels: seq<Label>, value: nat)

  /** `key="value"` */
  function RenderLabel(l: Label): string {
    l.key + "=\"" + l.value + "\""
  }

  /** `k1="v1",k2="v2"` */
  function RenderLabels(ls: seq<Label>): string
    decreases |ls|
  {
    if ls == [] then ""
    else RenderLabel(ls[0]) + (if |ls| == 1 then "" else "," + RenderLabels(ls[1..]))
  }

  /** One sample line, without its terminating newline. */
  function RenderSample(s: Sample): string {
    s.name + "{" + RenderLabels(s.labels) + "} " + Decimal(s.value)
  }

  /** What the unescaped format can carry unambiguously. */
  predicate WellFormedLabel(l: Label) {
    '=' !in l.key && '}' !in l.key && '\n' !in l.key && '"' !in l.value && '\n' !in l.value
  }

  predicate WellFormed(s: Sample) {
    '{' !in s.name && '\n' !in s.name
    && forall k | 0 <= k < |s.labels| :: WellFormedLabel(s.labels[k])
  }

  /** Reads one `key="value"`; gives back the label and what follows its
      closing quote. */
  function ParseLabel(s: string): Option<(Label, string)> {
    var e := IndexOf(s, '=');
    if e + 1 >= |s| || s[e + 1] != '"' then None
    else
      var v := s[e + 2..];
      var q := IndexOf(v, '"');
      if q + 1 >= |v| then None
      else Some((Label(s[..e], v[..q]), v[q + 1..]))
  }

  /** Reads labels up to and including the closing `}`; gives back the labels
      and what follows the brace. */
  function ParseLabels(s: string): Option<(seq<Label>, string)>
    decreases |s|
  {
    if |s| > 0 && s[0] == '}' then Some(([], s[1..]))
    else
      match ParseLabel(s)
      case None => None
      case Some(r) =>
        var (first, next) := r;
        if next[0] == '}' then Some(([first], next[1..]))
        else if next[0] == ',' then
          match ParseLabels(next[1..])
          case None => None
          case Some(r) => Some(([first] + r.0, r.1))
        else None
  }

  /** Reads one sample line (without its newline). */
  function ParseSample(line: string): Option<Sample> {
    var b := IndexOf(line, '{');
    if b == |line| then None
    else
      match ParseLabels(line[b + 1..])
      case None => None
      case Some(r) =>
        var rest := r.1;
        if |rest| >= 2 && rest[0] == ' ' && AllDigits(rest[1..], 10)
        then Some(Sample(line[..b], r.0, Parse(rest[1..], 10)))
        else None
  }

  /** Reading one rendered label gives it back, and what follows it. */
  lemma ParseRenderLabel(l: Label, next: string)
    requires WellFormedLabel(l) && |next| > 0
    ensures ParseLabel(RenderLabel(l) + next) == Some((l, next))
  {
    var s := RenderLabel(l) + next;
    var v := l.value + ['"'] + next;
    LabelShape(l.key, l.value, next);
    IndexOfAfter(l.key, '=', ['"'] + v);
    IndexOfAfter(l.value, '"', next);
    ValueShape(l.value, next);
  }

  lemma ValueShape(v: string, next: string)
    ensures (v + ['"'] + next)[..|v|] == v && (v + ['"'] + next)[|v| + 1..] == next
  {
  }

  /** Reading one rendered label, then whatever follows it. */
  lemma ParseLabelStep(l: Label, next: string)
    requires WellFormedLabel(l) && |next| > 0
    ensures ParseLabels(RenderLabel(l) + next) ==
      if next[0] == '}' then Some(([l], next[1..]))
      else if next[0] == ',' then
        match ParseLabels(next[1..])
        case None => None
        case Some(r) => Some(([l] + r.0, r.1))
      else None
  {
    var s := RenderLabel(l) + next;
    ParseRenderLabel(l, next);
    assert !(|s| > 0 && s[0] == '}') by {
      LabelShape(l.key, l.value, next);
      if |l.key| > 0 { assert s[0] == l.key[0]; } else { assert s[0] == '='; }
    }
  }

  /** Where the pieces of a rendered label sit. */
  lemma LabelShape(k: string, v: string, next: string)
    ensures var s := k + "=\"" + v + "\"" + next;
      s == k + ['='] + (['"'] + (v + ['"'] + next))
      && s[..|k|] == k && s[|k| + 1] == '"' && s[|k| + 2..] == v + ['"'] + next
  {
  }

  lemma {:induction false} ParseRenderLabels(ls: seq<Label>, tail: string)
    requires forall k | 0 <= k < |ls| :: WellFormedLabel(ls[k])
    ensures ParseLabels(RenderLabels(ls) + "}" + tail) == Some((ls, tail))
    decreases |ls|
  {
    if ls == [] {
      ParseNoLabels(tail);
    } else if |ls| == 1 {
      assert [ls[0]] == ls;
      ParseOneLabel(ls[0], tail);
    } else {
      var rest := ls[1..];
      assert forall k | 0 <= k < |rest| :: rest[k] == ls[k + 1];
      ParseRenderLabels(rest, tail);
      assert [ls[0]] + rest == ls;
      ParseConsLabel(ls[0], rest, tail);
    }
  }

  lemma ParseNoLabels(tail: string)
    ensures ParseLabels(RenderLabels([]) + "}" + tail) == Some(([], tail))
  {
    assert RenderLabels([]) + "}" + tail == "}" + tail;
  }

  lemma ParseOneLabel(l: Label, tail: string)
    requires WellFormedLabel(l)
    ensures ParseLabels(RenderLabels([l]) + "}" + tail) == Some(([l], tail))
  {
    var r0 := RenderLabel(l);
    assert RenderLabels([l]) == r0;
    LabelsShape(r0, "", tail);
    ParseLabelStep(l, "}" + tail);
  }

  lemma ParseConsLabel(l: Label, ls: seq<Label>, tail: string)
    requires WellFormedLabel(l) && ls != []
    requires ParseLabels(RenderLabels(ls) + "}" + tail) == Some((ls, tail))
    ensures ParseLabels(RenderLabels([l] + ls) + "}" + tail) == Some(([l] + ls, tail))
  {
    var r0, rest := RenderLabel(l), RenderLabels(ls);
    assert ([l] + ls)[1..] == ls;
    assert RenderLabels([l] + ls) == r0 + "," + rest;
    LabelsShape(r0, rest, tail);
    ParseLabelStep(l, "," + (rest + "}" + tail));
  }

  /** How the text after the first label splits. */
  lemma LabelsShape(r0: string, rest: string, tail: string)
    ensures r0 + "}" + tail == r0 + ("}" + tail)
    ensures r0 + "," + rest + "}" + tail == r0 + ("," + (rest + "}" + tail))
    ensures ("," + (rest + "}" + tail))[1..] == rest + "}" + tail
    ensures ("}" + tail)[1..] == tail
  {
  }

  /** Reading back a well-formed rendered sample line gives the sample. */
  lemma ParseRenderSample(s: Sample)
    requires WellFormed(s)
    ensures ParseSample(RenderSample(s)) == Some(s)
  {
    var digits := Decimal(s.value);
    var labels := RenderLabels(s.labels);
    var after := labels + "}" + (" " + digits);
    SampleShape(s.name, labels, digits);
    IndexOfAfter(s.name, '{', after);
    ParseRenderLabels(s.labels, " " + digits);
    ParseRender(s.value, 10);
  }

  /** Where the pieces of a rendered sample sit. */
  lemma SampleShape(name: string, labels: string, digits: string)
    ensures var line := name + "{" + labels + "} " + digits;
      var after := labels + "}" + (" " + digits);
      line == name + ['{'] + after && line[..|name|] == name && line[|name| + 1..] == after
      && (" " + digits)[1..] == digits
  {
  }

  lemma {:induction false} RenderLabelsNoNewline(ls: seq<Label>)
    requires forall k | 0 <= k < |ls| :: WellFormedLabel(ls[k])
    ensures NoNewline(RenderLabels(ls))
    decreases |ls|
  {
    if |ls| > 1 {
      RenderLabelsNoNewline(ls[1..]);
    }
  }

  /** A well-formed sample renders as a single line. */
  lemma RenderSampleNoNewline(s: Sample)
    requires WellFormed(s)
    ensures NoNewline(RenderSample(s))
  {
    RenderLabelsNoNewline(s.labels);
    var d := Decimal(s.value);
    assert '\n' !in d by {
      forall i | 0 <= i < |d| ensures d[i] != '\n' {
        assert IsDigit(d[i], 10);
      }
    }
  }
}
