/**
 Schema key paths as text: how they are parsed into steps, how the schema walk prints
 them, and when the two are inverse.
 */
module SchemaPaths {
  import opened TypePaths

  // `text.split(separator)`.
  function Split(text: string, separator: char): (parts: seq<string>)
    ensures parts != []
  {
    if text == "" then [""]
    else
      var rest := Split(text[1..], separator);
      if text[0] == separator then [""] + rest else [[text[0]] + rest[0]] + rest[1..]
  }

  // One dotted segment: a member name and the array hops after it.
  datatype Segment = Segment(name: string, arrays: nat)

  predicate EndsWithArray(s: string) {
    |s| >= 2 && s[|s| - 2..] == "[]"
  }

  function ParseSegment(text: string): Segment {
    if EndsWithArray(text) then
      var inner := ParseSegment(text[..|text| - 2]);
      inner.(arrays := inner.arrays + 1)
    else Segment(text, 0)
  }

  function Elements(n: nat): (steps: Path)
    ensures |steps| == n && forall i :: 0 <= i < n ==> steps[i] == Element
  {
    seq(n, _ => Element)
  }

  function SegmentSteps(segment: Segment): Path {
    [Member(segment.name)] + Elements(segment.arrays)
  }

  function StepsOf(segments: seq<Segment>): Path {
    if segments == [] then [] else StepsOf(segments[..|segments| - 1]) + SegmentSteps(segments[|segments| - 1])
  }

  function ParseSegments(texts: seq<string>): (segments: seq<Segment>)
    ensures |segments| == |texts|
    ensures forall i :: 0 <= i < |texts| ==> segments[i] == ParseSegment(texts[i])
  {
    seq(|texts|, i requires 0 <= i < |texts| => ParseSegment(texts[i]))
  }

  function Parsed(path: string): Path {
    StepsOf(ParseSegments(Split(path, '.')))
  }

  method ParsePath(path: string) returns (steps: Path)
    ensures steps == Parsed(path)
  {
    steps := [];
    var segments := Split(path, '.');
    for i := 0 to |segments|
      invariant steps == StepsOf(ParseSegments(segments[..i]))
    {
      var name := segments[i];
      var arrays := 0;
      while EndsWithArray(name)
        invariant ParseSegment(segments[i]) == Segment(ParseSegment(name).name, ParseSegment(name).arrays + arrays)
        decreases |name|
      {
        name := name[..|name| - 2];
        arrays := arrays + 1;
      }
      ghost var before := steps;
      steps := steps + [Member(name)];
      for hop := 0 to arrays
        invariant steps == before + [Member(name)] + Elements(hop)
      {
        steps := steps + [Element];
      }
      assert ParseSegments(segments[..i + 1])[..i] == ParseSegments(segments[..i]);
      assert steps == before + SegmentSteps(ParseSegment(segments[i]));
    }
    assert segments[..|segments|] == segments;
  }

  // How the schema walk extends a path text.
  function Render(steps: Path): string {
    if steps == [] then ""
    else
      var n := |steps| - 1;
      match steps[n]
      case Element => Render(steps[..n]) + "[]"
      case Member(name) => if n == 0 then name else Render(steps[..n]) + "." + name
  }

  predicate StartsWithMember(steps: Path) {
    steps != [] && steps[0].Member?
  }

  // Keys that survive the text form.
  predicate CleanKey(key: string) {
    '.' !in key && !EndsWithArray(key)
  }

  predicate CleanSteps(steps: Path) {
    forall i :: 0 <= i < |steps| && steps[i].Member? ==> CleanKey(steps[i].name)
  }

  function Hops(n: nat): string {
    if n == 0 then "" else Hops(n - 1) + "[]"
  }

  function SegmentText(segment: Segment): string {
    segment.name + Hops(segment.arrays)
  }

  function Texts(segments: seq<Segment>): (texts: seq<string>)
    ensures |texts| == |segments|
    ensures forall i :: 0 <= i < |texts| ==> texts[i] == SegmentText(segments[i])
  {
    seq(|segments|, i requires 0 <= i < |segments| => SegmentText(segments[i]))
  }

  function Join(texts: seq<string>): string
    requires texts != []
  {
    if |texts| == 1 then texts[0] else texts[0] + "." + Join(texts[1..])
  }

  function Dots(text: string): nat {
    if text == "" then 0 else (if text[0] == '.' then 1 else 0) + Dots(text[1..])
  }

  lemma {:induction false} DotsConcat(a: string, b: string)
    ensures Dots(a + b) == Dots(a) + Dots(b)
  {
    if a == "" {
      assert a + b == b;
    } else {
      assert (a + b)[1..] == a[1..] + b;
      DotsConcat(a[1..], b);
    }
  }

  lemma {:induction false} NoDots(text: string)
    ensures Dots(text) == 0 <==> '.' !in text
  {
    if text != "" {
      NoDots(text[1..]);
      assert text == [text[0]] + text[1..];
    }
  }

  lemma {:induction false} SplitCounts(text: string)
    ensures |Split(text, '.')| == Dots(text) + 1
  {
    if text != "" {
      SplitCounts(text[1..]);
    }
  }

  lemma {:induction false} SplitWhole(text: string)
    requires '.' !in text
    ensures Split(text, '.') == [text]
  {
    if text != "" {
      assert text == [text[0]] + text[1..];
      SplitWhole(text[1..]);
    }
  }

  lemma {:induction false} SplitAtDot(head: string, tail: string)
    requires '.' !in head
    ensures Split(head + "." + tail, '.') == [head] + Split(tail, '.')
  {
    var whole := head + "." + tail;
    if head == "" {
      assert whole[1..] == tail;
    } else {
      assert head == [head[0]] + head[1..];
      assert whole[1..] == head[1..] + "." + tail;
      SplitAtDot(head[1..], tail);
    }
  }

  lemma {:induction false} SplitJoin(texts: seq<string>)
    requires texts != [] && forall i :: 0 <= i < |texts| ==> '.' !in texts[i]
    ensures Split(Join(texts), '.') == texts
  {
    if |texts| == 1 {
      SplitWhole(texts[0]);
    } else {
      SplitJoin(texts[1..]);
      SplitAtDot(texts[0], Join(texts[1..]));
    }
  }

  lemma {:induction false} JoinDots(texts: seq<string>)
    requires texts != []
    ensures Dots(Join(texts)) >= |texts| - 1
    ensures (exists i :: 0 <= i < |texts| && '.' in texts[i]) ==> Dots(Join(texts)) >= |texts|
  {
    NoDots(texts[0]);
    if |texts| > 1 {
      var rest := Join(texts[1..]);
      JoinDots(texts[1..]);
      DotsConcat(texts[0] + ".", rest);
      DotsConcat(texts[0], ".");
      assert Dots(".") == 1;
      forall i | 0 < i < |texts| && '.' in texts[i] ensures '.' in texts[1..][i - 1] {
      }
    }
  }

  lemma {:induction false} HopsText(name: string, n: nat)
    ensures '.' in name + Hops(n) <==> '.' in name
    ensures ParseSegment(name + Hops(n)) == Segment(ParseSegment(name).name, ParseSegment(name).arrays + n)
  {
    if n == 0 {
      assert name + Hops(0) == name;
    } else {
      HopsText(name, n - 1);
      assert name + Hops(n) == (name + Hops(n - 1)) + "[]";
      var text := name + Hops(n);
      assert text[..|text| - 2] == name + Hops(n - 1) && text[|text| - 2..] == "[]";
    }
  }

  lemma {:induction false} ParsedNameIsStripped(text: string)
    ensures !EndsWithArray(ParseSegment(text).name)
  {
    if EndsWithArray(text) {
      ParsedNameIsStripped(text[..|text| - 2]);
    }
  }

  lemma SegmentRoundTrip(segment: Segment)
    requires '.' !in segment.name
    ensures ParseSegment(SegmentText(segment)) == segment <==> CleanKey(segment.name)
  {
    HopsText(segment.name, segment.arrays);
    ParsedNameIsStripped(segment.name);
  }

  ghost predicate CleanSegments(segments: seq<Segment>) {
    forall i :: 0 <= i < |segments| ==> CleanKey(segments[i].name)
  }

  // Parsing the printed segments gives them back exactly when every key is clean.
  lemma SegmentsRoundTrip(segments: seq<Segment>)
    requires segments != []
    ensures ParseSegments(Split(Join(Texts(segments)), '.')) == segments <==> CleanSegments(segments)
  {
    var texts := Texts(segments);
    forall i | 0 <= i < |segments| ensures '.' in texts[i] <==> '.' in segments[i].name {
      HopsText(segments[i].name, segments[i].arrays);
    }
    if exists i :: 0 <= i < |segments| && '.' in segments[i].name {
      JoinDots(texts);
      SplitCounts(Join(texts));
    } else {
      SplitJoin(texts);
      var parsed := ParseSegments(texts);
      forall i | 0 <= i < |segments| ensures parsed[i] == segments[i] <==> CleanKey(segments[i].name) {
        SegmentRoundTrip(segments[i]);
      }
    }
  }

  function PushStep(segments: seq<Segment>, step: Step): seq<Segment> {
    match step
    case Member(name) => segments + [Segment(name, 0)]
    case Element =>
      if segments == [] then []
      else segments[..|segments| - 1] + [segments[|segments| - 1].(arrays := segments[|segments| - 1].arrays + 1)]
  }

  // Groups steps into segments.
  function Group(steps: Path): seq<Segment> {
    if steps == [] then [] else PushStep(Group(steps[..|steps| - 1]), steps[|steps| - 1])
  }

  lemma {:induction false} GroupSteps(steps: Path)
    requires StartsWithMember(steps)
    ensures Group(steps) != [] && StepsOf(Group(steps)) == steps
    ensures CleanSegments(Group(steps)) <==> CleanSteps(steps)
    ensures Render(steps) == Join(Texts(Group(steps)))
  {
    hide StepsOf, Join, Texts, CleanSteps, CleanSegments, CleanKey, PushStep;
    var n := |steps| - 1;
    assert steps == steps[..n] + [steps[n]];
    if n == 0 {
      GroupOne(steps[0].name);
    } else {
      GroupSteps(steps[..n]);
      PushStepFacts(Group(steps[..n]), steps[n]);
      CleanPush(steps, n);
    }
  }

  lemma GroupOne(name: string)
    ensures Group([Member(name)]) == [Segment(name, 0)]
    ensures StepsOf([Segment(name, 0)]) == [Member(name)]
    ensures CleanSegments([Segment(name, 0)]) <==> CleanSteps([Member(name)])
    ensures Render([Member(name)]) == Join(Texts([Segment(name, 0)]))
  {
    var steps, segments := [Member(name)], [Segment(name, 0)];
    assert Group(steps[..0]) == [] && StepsOf(segments[..0]) == [];
    assert SegmentSteps(segments[0]) == steps;
    assert name + Hops(0) == name;
    assert Texts(segments) == [name];
    OneClean(name);
  }

  lemma OneClean(name: string)
    ensures CleanSegments([Segment(name, 0)]) <==> CleanKey(name)
    ensures CleanSteps([Member(name)]) <==> CleanKey(name)
  {
    assert [Segment(name, 0)][0].name == name && [Member(name)][0] == Member(name);
  }

  lemma PushStepFacts(segments: seq<Segment>, step: Step)
    requires segments != []
    ensures var longer := PushStep(segments, step);
            && longer != [] && StepsOf(longer) == StepsOf(segments) + [step]
            && Join(Texts(longer)) == Join(Texts(segments)) + (if step.Element? then "[]" else "." + step.name)
            && (CleanSegments(longer) <==> CleanSegments(segments) && (step.Member? ==> CleanKey(step.name)))
  {
    hide StepsOf, Join, Texts, CleanSegments, CleanKey;
    match step
    case Member(name) => PushMember(segments, name);
    case Element => PushElement(segments);
  }

  lemma CleanPush(steps: Path, n: nat)
    requires n == |steps| - 1
    ensures CleanSteps(steps) <==> CleanSteps(steps[..n]) && (steps[n].Member? ==> CleanKey(steps[n].name))
  {
    if CleanSteps(steps) {
      forall i | 0 <= i < n && steps[..n][i].Member? ensures CleanKey(steps[..n][i].name) {
        assert steps[..n][i] == steps[i];
      }
    }
    if CleanSteps(steps[..n]) && (steps[n].Member? ==> CleanKey(steps[n].name)) {
      forall i | 0 <= i < |steps| && steps[i].Member? ensures CleanKey(steps[i].name) {
        assert i == n || steps[..n][i] == steps[i];
      }
    }
  }

  lemma PushMember(segments: seq<Segment>, name: string)
    requires segments != []
    ensures var longer := segments + [Segment(name, 0)];
            && StepsOf(longer) == StepsOf(segments) + [Member(name)]
            && Join(Texts(longer)) == Join(Texts(segments)) + "." + name
            && (CleanSegments(longer) <==> CleanSegments(segments) && CleanKey(name))
  {
    var longer := segments + [Segment(name, 0)];
    assert longer[..|segments|] == segments;
    assert Texts(longer) == Texts(segments) + [name + ""];
    assert name + "" == name;
    JoinPush(Texts(segments), name);
    assert forall i :: 0 <= i < |segments| ==> longer[i] == segments[i];
    assert longer[|segments|].name == name;
  }

  lemma {:induction false} JoinPush(texts: seq<string>, text: string)
    requires texts != []
    ensures Join(texts + [text]) == Join(texts) + "." + text
  {
    if |texts| > 1 {
      JoinPush(texts[1..], text);
      assert (texts + [text])[1..] == texts[1..] + [text];
    } else {
      assert (texts + [text])[1..] == [text];
    }
  }

  lemma {:induction false} JoinLast(texts: seq<string>, suffix: string)
    requires texts != []
    ensures Join(texts[..|texts| - 1] + [texts[|texts| - 1] + suffix]) == Join(texts) + suffix
  {
    var n := |texts| - 1;
    var longer := texts[..n] + [texts[n] + suffix];
    if n > 0 {
      JoinLast(texts[1..], suffix);
      assert longer[1..] == texts[1..][..n - 1] + [texts[1..][n - 1] + suffix];
    }
  }

  lemma OneMoreHop(segment: Segment)
    ensures SegmentText(segment.(arrays := segment.arrays + 1)) == SegmentText(segment) + "[]"
  {
    assert segment.name + (Hops(segment.arrays) + "[]") == (segment.name + Hops(segment.arrays)) + "[]";
  }

  lemma PushElement(segments: seq<Segment>)
    requires segments != []
    ensures var n := |segments| - 1;
            var longer := segments[..n] + [segments[n].(arrays := segments[n].arrays + 1)];
            && StepsOf(longer) == StepsOf(segments) + [Element]
            && Join(Texts(longer)) == Join(Texts(segments)) + "[]"
            && (CleanSegments(longer) <==> CleanSegments(segments))
  {
    hide Join, Hops, CleanKey;
    var n := |segments| - 1;
    var longer := segments[..n] + [segments[n].(arrays := segments[n].arrays + 1)];
    assert longer[..n] == segments[..n];
    assert SegmentSteps(longer[n]) == SegmentSteps(segments[n]) + [Element];
    OneMoreHop(segments[n]);
    JoinLast(Texts(segments), "[]");
    assert Texts(longer) == Texts(segments)[..n] + [Texts(segments)[n] + "[]"];
    assert forall i :: 0 <= i < n ==> longer[i] == segments[i];
    assert longer[n].name == segments[n].name;
  }

  lemma {:induction false} StepsDetermineSegments(segments: seq<Segment>)
    ensures segments != [] ==> StartsWithMember(StepsOf(segments))
    ensures segments != [] ==> Group(StepsOf(segments)) == segments
  {
    hide PushStep;
    if segments != [] {
      var n := |segments| - 1;
      StepsDetermineSegments(segments[..n]);
      GroupSegment(StepsOf(segments[..n]), segments[n].name, segments[n].arrays);
      assert segments == segments[..n] + [segments[n]];
    }
  }

  lemma LastGrouped(steps: Path)
    requires steps != []
    ensures Group(steps) == PushStep(Group(steps[..|steps| - 1]), steps[|steps| - 1])
  {
  }

  lemma {:induction false} GroupSegment(before: Path, name: string, arrays: nat)
    ensures Group(before + SegmentSteps(Segment(name, arrays))) == Group(before) + [Segment(name, arrays)]
  {
    hide Group;
    var steps := before + SegmentSteps(Segment(name, arrays));
    var n := |steps| - 1;
    if arrays == 0 {
      assert steps[..n] == before && steps[n] == Member(name);
      LastGrouped(steps);
    } else {
      GroupSegment(before, name, arrays - 1);
      assert steps[..n] == before + SegmentSteps(Segment(name, arrays - 1));
      assert steps[n] == Element;
      var segments := Group(before) + [Segment(name, arrays - 1)];
      LastGrouped(steps);
      assert segments[..|segments| - 1] == Group(before);
    }
  }

  lemma {:induction false} SplitJoins(text: string)
    ensures Join(Split(text, '.')) == text
    ensures forall i :: 0 <= i < |Split(text, '.')| ==> '.' !in Split(text, '.')[i]
  {
    if text != "" {
      var rest, parts := Split(text[1..], '.'), Split(text, '.');
      SplitJoins(text[1..]);
      assert text == [text[0]] + text[1..];
      if text[0] == '.' {
        assert parts[1..] == rest;
      } else {
        assert parts[1..] == rest[1..];
      }
    }
  }

  lemma {:induction false} SegmentIsExact(text: string)
    ensures SegmentText(ParseSegment(text)) == text
    ensures '.' !in text ==> CleanKey(ParseSegment(text).name)
  {
    ParsedNameIsStripped(text);
    if EndsWithArray(text) {
      var inner := text[..|text| - 2];
      SegmentIsExact(inner);
      OneMoreHop(ParseSegment(inner));
      assert text == inner + "[]";
    } else {
      assert text + Hops(0) == text;
    }
  }

  // Whatever the text, it parses to the one path of clean keys that prints as it.
  lemma ParsedIsExact(path: string)
    ensures StartsWithMember(Parsed(path)) && CleanSteps(Parsed(path)) && Render(Parsed(path)) == path
  {
    var texts := Split(path, '.');
    var segments := ParseSegments(texts);
    SplitJoins(path);
    forall i | 0 <= i < |texts| ensures SegmentText(segments[i]) == texts[i] && CleanKey(segments[i].name) {
      SegmentIsExact(texts[i]);
    }
    assert Texts(segments) == texts;
    StepsDetermineSegments(segments);
    GroupSteps(Parsed(path));
  }

  // A printed path parses back to its steps exactly when no key contains `.` or ends in `[]`.
  lemma PathRoundTripIff(steps: Path)
    requires StartsWithMember(steps)
    ensures Parsed(Render(steps)) == steps <==> CleanSteps(steps)
  {
    GroupSteps(steps);
    var segments := Group(steps);
    SegmentsRoundTrip(segments);
    StepsDetermineSegments(ParseSegments(Split(Render(steps), '.')));
  }
}
