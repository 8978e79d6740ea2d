/**
 Reading many files at once from `git cat-file --batch`: a header line, the content and a
 newline for each requested path.
 */
module GitBatch {
  import opened Decimal
  import opened Wrappers

  type Path = Bytes

  const MISSING := " missing"

  function IndexOf(s: Bytes, c: char): (i: nat)
    ensures i <= |s| && (forall k :: 0 <= k < i ==> s[k] != c) && (i < |s| ==> s[i] == c)
  {
    if s == "" || s[0] == c then 0 else 1 + IndexOf(s[1..], c)
  }

  predicate EndsWith(s: Bytes, suffix: Bytes) {
    |s| >= |suffix| && s[|s| - |suffix|..] == suffix
  }

  // The k-th of the pieces between spaces.
  function Piece(s: Bytes, k: nat): Option<Bytes>
    decreases k
  {
    var i := IndexOf(s, ' ');
    if k == 0 then Some(s[..i]) else if i == |s| then None else Piece(s[i + 1..], k - 1)
  }

  // The UTF-8 length of the white space character the text starts with, or 0.
  function WhiteLength(s: Bytes): (n: nat)
    ensures n <= |s|
  {
    if s == "" then 0
    else if s[0] == ' ' || '\t' <= s[0] <= '\r' then 1
    else if |s| >= 2 && s[0] == '\U{00C2}' && s[1] == '\U{00A0}' then 2
    else if |s| >= 3 && IsWide(s[0], s[1], s[2]) then 3
    else 0
  }

  // The white space characters that take three bytes.
  predicate IsWide(a: char, b: char, c: char) {
    || (a == '\U{00E1}' && b == '\U{009A}' && c == '\U{0080}')
    || (a == '\U{00E2}' && b == '\U{0080}' && '\U{0080}' <= c <= '\U{008A}')
    || (a == '\U{00E2}' && b == '\U{0080}' && (c == '\U{00A8}' || c == '\U{00A9}' || c == '\U{00AF}'))
    || (a == '\U{00E2}' && b == '\U{0081}' && c == '\U{009F}')
    || (a == '\U{00E3}' && b == '\U{0080}' && c == '\U{0080}')
    || (a == '\U{00EF}' && b == '\U{00BB}' && c == '\U{00BF}')
  }

  function TrimStart(s: Bytes): Bytes
    decreases |s|
  {
    var n := WhiteLength(s);
    if n == 0 then s else TrimStart(s[n..])
  }

  // `parseInt(s, 10)`: white space, a sign, and the longest run of digits; anything may follow.
  function ParseInt(s: Bytes): Option<int> {
    var t := TrimStart(s);
    var signed := t != "" && (t[0] == '+' || t[0] == '-');
    var digits := if signed then t[1..] else t;
    var n := DigitCount(digits);
    if n == 0 then None
    else
      var magnitude: int := Value(digits[..n]);
      Some(if signed && t[0] == '-' then -magnitude else magnitude)
  }

  // The content size a header announces, when it announces a usable one.
  function AnnouncedSize(header: Bytes): Option<nat> {
    var piece := Piece(header, 2);
    var size := ParseInt(if piece.Some? then piece.value else "");
    if size.Some? && 0 <= size.value <= MAX_SAFE_INTEGER then Some(size.value) else None
  }

  // The position of the first c at or after `from`, or the length.
  function IndexFrom(s: Bytes, c: char, from: nat): (i: nat)
    requires from <= |s|
    ensures from <= i <= |s| && (forall k :: from <= k < i ==> s[k] != c) && (i < |s| ==> s[i] == c)
    decreases |s| - from
  {
    if from == |s| || s[from] == c then from else IndexFrom(s, c, from + 1)
  }

  // ----- frames

  datatype Frame = Frame(header: Bytes, content: Bytes)

  function FrameBytes(f: Frame): Bytes {
    f.header + "\n" + f.content + "\n"
  }

  function FrameLength(f: Frame): nat {
    |f.header| + 1 + |f.content| + 1
  }

  predicate Readable(f: Frame) {
    '\n' !in f.header && !EndsWith(f.header, MISSING) && AnnouncedSize(f.header) == Some(|f.content|)
  }

  // The bytes of the frame lie at the offset.
  predicate LiesAt(f: Frame, output: Bytes, offset: nat) {
    && offset + FrameLength(f) <= |output|
    && var end := offset + |f.header|;
       output[offset..end] == f.header && output[end] == '\n'
       && output[end + 1..end + 1 + |f.content|] == f.content && output[end + 1 + |f.content|] == '\n'
  }

  lemma LiesAtIff(f: Frame, output: Bytes, offset: nat)
    requires offset <= |output|
    ensures LiesAt(f, output, offset) <==> FrameBytes(f) <= output[offset..]
  {
    var rest, bytes, n := output[offset..], FrameBytes(f), |f.header|;
    if FrameBytes(f) <= rest {
      assert bytes == rest[..|bytes|];
      assert rest[..n] == bytes[..n] && rest[n + 1..n + 1 + |f.content|] == bytes[n + 1..n + 1 + |f.content|];
    }
    if LiesAt(f, output, offset) {
      assert rest[..|bytes|] == bytes;
    }
  }

  function Length(frames: seq<Frame>): nat {
    if frames == [] then 0 else Length(frames[..|frames| - 1]) + FrameLength(frames[|frames| - 1])
  }

  // The output starts with these readable frames, one after the other.
  ghost predicate Framed(frames: seq<Frame>, output: Bytes) {
    if frames == [] then true
    else
      var n := |frames| - 1;
      Framed(frames[..n], output) && Readable(frames[n]) && LiesAt(frames[n], output, Length(frames[..n]))
  }

  datatype Failure = NoHeader(path: Path) | NotAtRef(path: Path) | InvalidSize(path: Path) | Truncated(path: Path)

  // Why no frame for the path can be read at the offset.
  predicate Fails(output: Bytes, offset: nat, path: Path, failure: Failure) {
    offset <= |output| && failure.path == path &&
    var end := IndexFrom(output, '\n', offset);
    var header := output[offset..end];
    match failure
    case NoHeader(_) => end == |output|
    case NotAtRef(_) => end < |output| && EndsWith(header, MISSING)
    case InvalidSize(_) => end < |output| && !EndsWith(header, MISSING) && AnnouncedSize(header).None?
    case Truncated(_) =>
      end < |output| && !EndsWith(header, MISSING) && AnnouncedSize(header).Some?
      && var contentEnd := end + 1 + AnnouncedSize(header).value; contentEnd >= |output| || output[contentEnd] != '\n'
  }

  // The frames before the one that fails.
  ghost predicate FailsAfter(frames: seq<Frame>, output: Bytes, paths: seq<Path>, failure: Failure) {
    Framed(frames, output) && |frames| < |paths| && Fails(output, Length(frames), paths[|frames|], failure)
  }

  // What the map holds after the frames were stored under their paths in order.
  function Contents(paths: seq<Path>, frames: seq<Frame>): map<Path, Bytes>
    requires |paths| == |frames|
  {
    if paths == [] then map[]
    else
      var last := |paths| - 1;
      Contents(paths[..last], frames[..last])[paths[last] := frames[last].content]
  }

  // One turn of the loop: the frame at the offset, or why there is none.
  method ReadFrame(output: Bytes, offset: nat, path: Path) returns (r: Result<Frame, Failure>)
    requires offset <= |output|
    ensures r.Ok? ==> Readable(r.value) && LiesAt(r.value, output, offset)
    ensures r.Err? ==> Fails(output, offset, path, r.error)
  {
    hide AnnouncedSize;
    var headerEnd := IndexFrom(output, '\n', offset);
    if headerEnd == |output| {
      return Err(NoHeader(path));
    }
    var header := output[offset..headerEnd];
    if EndsWith(header, MISSING) {
      return Err(NotAtRef(path));
    }
    var size := AnnouncedSize(header);
    if size.None? {
      return Err(InvalidSize(path));
    }
    var contentStart := headerEnd + 1;
    var contentEnd := contentStart + size.value;
    if contentEnd >= |output| || output[contentEnd] != '\n' {
      return Err(Truncated(path));
    }
    r := Ok(Frame(header, output[contentStart..contentEnd]));
  }

  method ReadGitFiles(output: Bytes, paths: seq<Path>) returns (r: Result<map<Path, Bytes>, Failure>, offset: nat)
    ensures r.Ok? ==> exists frames :: |frames| == |paths| && Framed(frames, output)
                                       && r.value == Contents(paths, frames) && offset == Length(frames)
    ensures r.Err? ==> exists frames :: FailsAfter(frames, output, paths, r.error)
  {
    var contents := map[];
    ghost var frames: seq<Frame> := [];
    offset := 0;
    for i := 0 to |paths|
      invariant |frames| == i && Framed(frames, output) && offset == Length(frames) <= |output|
      invariant contents == Contents(paths[..i], frames)
    {
      var frame := ReadFrame(output, offset, paths[i]);
      if frame.Err? {
        assert FailsAfter(frames, output, paths, frame.error);
        return Err(frame.error), offset;
      }
      PushFrame(frames, frame.value, output);
      PushContents(paths, i, frames, frame.value);
      contents := contents[paths[i] := frame.value.content];
      frames := frames + [frame.value];
      offset := offset + FrameLength(frame.value);
    }
    assert paths[..|paths|] == paths;
    r := Ok(contents);
  }

  lemma PushFrame(frames: seq<Frame>, f: Frame, output: Bytes)
    requires Framed(frames, output) && Readable(f) && LiesAt(f, output, Length(frames))
    ensures Framed(frames + [f], output)
    ensures Length(frames + [f]) == Length(frames) + FrameLength(f) <= |output|
  {
    assert (frames + [f])[..|frames|] == frames;
  }

  lemma PushContents(paths: seq<Path>, i: nat, frames: seq<Frame>, f: Frame)
    requires |frames| == i < |paths|
    ensures Contents(paths[..i + 1], frames + [f]) == Contents(paths[..i], frames)[paths[i] := f.content]
  {
    assert paths[..i + 1][..i] == paths[..i] && (frames + [f])[..i] == frames;
  }

  // ----- uniqueness

  lemma HeaderEnds(f: Frame, output: Bytes, offset: nat)
    requires Readable(f) && LiesAt(f, output, offset)
    ensures IndexFrom(output, '\n', offset) == offset + |f.header|
  {
    var end := offset + |f.header|;
    forall k | offset <= k < end ensures output[k] != '\n' {
      assert output[k] == f.header[k - offset];
    }
  }

  lemma SameFrame(f: Frame, g: Frame, output: Bytes, offset: nat)
    requires Readable(f) && Readable(g) && LiesAt(f, output, offset) && LiesAt(g, output, offset)
    ensures f == g
  {
    hide AnnouncedSize;
    HeaderEnds(f, output, offset);
    HeaderEnds(g, output, offset);
    assert AnnouncedSize(f.header) == AnnouncedSize(g.header);
  }

  // There is only one way to read a given number of frames.
  lemma {:induction false} FramesAreUnique(frames: seq<Frame>, others: seq<Frame>, output: Bytes)
    requires Framed(frames, output) && Framed(others, output) && |frames| <= |others|
    ensures frames == others[..|frames|]
    ensures |frames| < |others| ==> Readable(others[|frames|]) && LiesAt(others[|frames|], output, Length(frames))
    decreases |others|
  {
    hide Readable, LiesAt;
    var n := |others| - 1;
    if |frames| < n {
      FramesAreUnique(frames, others[..n], output);
      assert others[..n][..|frames|] == others[..|frames|];
    } else if |frames| == n {
      FramesAreUnique(frames, others[..n], output);
    } else if others != [] {
      FramesAreUnique(frames[..n], others[..n], output);
      assert frames[..n][..n] == frames[..n] && others[..n][..n] == others[..n];
      SameFrame(frames[n], others[n], output, Length(frames[..n]));
      assert frames == frames[..n] + [frames[n]] && others == others[..n] + [others[n]];
    }
  }

  // A run of the loop ends in one way: success excludes failure, and only one failure is possible.
  lemma FailureExcludes(frames: seq<Frame>, failure: Failure, others: seq<Frame>, output: Bytes, paths: seq<Path>)
    requires FailsAfter(frames, output, paths, failure) && Framed(others, output)
    ensures |others| <= |frames|
  {
    if |frames| < |others| {
      FramesAreUnique(frames, others, output);
      NoFailureAtFrame(others[|frames|], output, Length(frames), paths[|frames|], failure);
    }
  }

  lemma NoFailureAtFrame(f: Frame, output: Bytes, offset: nat, path: Path, failure: Failure)
    requires Readable(f) && LiesAt(f, output, offset)
    ensures !Fails(output, offset, path, failure)
  {
    hide AnnouncedSize;
    HeaderEnds(f, output, offset);
  }

  lemma FailureIsUnique(
    frames: seq<Frame>, failure: Failure, others: seq<Frame>, other: Failure, output: Bytes, paths: seq<Path>)
    requires FailsAfter(frames, output, paths, failure) && FailsAfter(others, output, paths, other)
    ensures frames == others && failure == other
  {
    hide AnnouncedSize;
    FailureExcludes(frames, failure, others, output, paths);
    FailureExcludes(others, other, frames, output, paths);
    FramesAreUnique(frames, others, output);
    assert others[..|frames|] == others;
  }

  // ----- git's side

  datatype GitObject = GitObject(oid: Bytes, kind: Bytes, content: Bytes)

  predicate WellFormed(o: GitObject) {
    '\n' !in o.oid && ' ' !in o.oid && '\n' !in o.kind && ' ' !in o.kind && |o.content| <= MAX_SAFE_INTEGER
  }

  function Header(o: GitObject): Bytes {
    o.oid + " " + o.kind + " " + Print(|o.content|)
  }

  // The reply to one request line.
  function Reply(objects: map<Path, GitObject>, ref: Bytes, path: Path): Bytes {
    if path in objects then FrameBytes(Frame(Header(objects[path]), objects[path].content))
    else ref + ":" + path + " missing\n"
  }

  function Batch(objects: map<Path, GitObject>, ref: Bytes, paths: seq<Path>): Bytes {
    if paths == [] then ""
    else Batch(objects, ref, paths[..|paths| - 1]) + Reply(objects, ref, paths[|paths| - 1])
  }

  function FrameOf(o: GitObject): Frame {
    Frame(Header(o), o.content)
  }

  lemma PieceAfter(word: Bytes, rest: Bytes, k: nat)
    requires ' ' !in word
    ensures Piece(word + " " + rest, k + 1) == Piece(rest, k)
  {
    var s := word + " " + rest;
    assert s[|word|] == ' ' && s[..|word|] == word && s[|word| + 1..] == rest;
    IndexIs(s, ' ', |word|);
  }

  lemma IndexIs(s: Bytes, c: char, n: nat)
    requires n <= |s| && (n < |s| ==> s[n] == c) && c !in s[..n]
    ensures IndexOf(s, c) == n
  {
    var i := IndexOf(s, c);
    assert forall k :: 0 <= k < n ==> s[k] == s[..n][k];
    assert forall k :: 0 <= k < i ==> s[k] == s[..i][k];
  }

  lemma NumeralPiece(n: nat)
    ensures Piece(Print(n), 0) == Some(Print(n))
  {
    hide Print;
    PrintIsNumeral(n);
    assert ' ' !in Print(n);
    IndexIs(Print(n), ' ', |Print(n)|);
    assert Print(n)[..|Print(n)|] == Print(n);
  }

  lemma NumeralParses(n: nat)
    ensures ParseInt(Print(n)) == Some(n)
  {
    hide Print;
    var s := Print(n);
    PrintIsNumeral(n);
    assert IsDigit(s[0]);
    ReadBack(n, "");
    assert s + "" == s;
    assert WhiteLength(s) == 0;
  }

  // A header's third word is its size if it is a numeral within the safe range; a minus sign is read, and
  // then only zero is a size.
  lemma AnnouncedIff(oid: Bytes, kind: Bytes, n: nat)
    requires ' ' !in oid && ' ' !in kind
    ensures AnnouncedSize(oid + " " + kind + " " + Print(n)) == if n <= 9007199254740991 then Some(n) else None
    ensures AnnouncedSize(oid + " " + kind + " -" + Print(n)) == if n == 0 then Some(0) else None
    ensures AnnouncedSize(oid + " " + kind).None?
  {
    hide Print, Piece, ParseInt, IndexOf;
    var word := "-" + Print(n);
    NumeralPiece(n);
    NumeralParses(n);
    NegativeParses(n);
    assert oid + " " + kind + " " + Print(n) == oid + " " + (kind + " " + Print(n));
    assert oid + " " + kind + " -" + Print(n) == oid + " " + (kind + " " + word);
    PieceAfter(oid, kind + " " + Print(n), 1);
    PieceAfter(kind, Print(n), 0);
    PieceAfter(oid, kind + " " + word, 1);
    PieceAfter(kind, word, 0);
    PieceAfter(oid, kind, 1);
    LastPiece(kind);
    NothingParses();
  }

  lemma NegativeParses(n: nat)
    ensures Piece("-" + Print(n), 0) == Some("-" + Print(n))
    ensures ParseInt("-" + Print(n)).Some? && ParseInt("-" + Print(n)).value + n == 0
  {
    hide Print;
    var s := "-" + Print(n);
    PrintIsNumeral(n);
    assert ' ' !in s;
    IndexIs(s, ' ', |s|);
    assert s[..|s|] == s && s[1..] == Print(n);
    ReadBack(n, "");
    assert Print(n) + "" == Print(n);
    assert WhiteLength(s) == 0;
  }

  lemma LastPiece(word: Bytes)
    requires ' ' !in word
    ensures Piece(word, 1).None?
  {
    IndexIs(word, ' ', |word|);
  }

  lemma NothingParses()
    ensures ParseInt("").None?
  {
    assert WhiteLength("") == 0;
  }

  lemma OtherEnd(s: Bytes, suffix: Bytes)
    requires s != "" && suffix != "" && s[|s| - 1] != suffix[|suffix| - 1]
    ensures !EndsWith(s, suffix)
  {
    if |s| >= |suffix| {
      assert s[|s| - |suffix|..][|suffix| - 1] == s[|s| - 1];
    }
  }

  lemma HeaderIsReadable(o: GitObject)
    requires WellFormed(o)
    ensures Readable(FrameOf(o))
  {
    hide Print, Piece, ParseInt, IndexOf;
    var size := Print(|o.content|);
    PrintIsNumeral(|o.content|);
    NumeralPiece(|o.content|);
    NumeralParses(|o.content|);
    assert Header(o) == o.oid + " " + (o.kind + " " + size);
    PieceAfter(o.oid, o.kind + " " + size, 1);
    PieceAfter(o.kind, size, 0);
    assert IsDigit(size[|size| - 1]);
    assert Header(o)[|Header(o)| - 1] == size[|size| - 1];
    OtherEnd(Header(o), MISSING);
    assert '\n' !in size;
  }

  ghost predicate AllWellFormed(objects: map<Path, GitObject>) {
    forall p :: p in objects ==> WellFormed(objects[p])
  }

  predicate AllStored(objects: map<Path, GitObject>, paths: seq<Path>) {
    forall i :: 0 <= i < |paths| ==> paths[i] in objects
  }

  function FramesFor(objects: map<Path, GitObject>, paths: seq<Path>): (frames: seq<Frame>)
    requires AllStored(objects, paths)
    ensures |frames| == |paths|
  {
    seq(|paths|, i requires 0 <= i < |paths| => FrameOf(objects[paths[i]]))
  }

  // The replies to stored paths are readable frames that fill the output so far.
  lemma {:induction false} RepliesAreFramed(objects: map<Path, GitObject>, ref: Bytes, paths: seq<Path>, output: Bytes)
    requires AllWellFormed(objects) && AllStored(objects, paths) && Batch(objects, ref, paths) <= output
    ensures Framed(FramesFor(objects, paths), output)
    ensures Length(FramesFor(objects, paths)) == |Batch(objects, ref, paths)|
  {
    hide Readable, LiesAt, WellFormed, Header;
    if paths != [] {
      var n := |paths| - 1;
      var init, o, before := paths[..n], objects[paths[n]], Batch(objects, ref, paths[..n]);
      assert Batch(objects, ref, paths) == before + FrameBytes(FrameOf(o));
      RepliesAreFramed(objects, ref, init, output);
      assert FramesFor(objects, paths)[..n] == FramesFor(objects, init);
      HeaderIsReadable(o);
      assert FrameBytes(FrameOf(o)) <= output[|before|..];
      LiesAtIff(FrameOf(o), output, |before|);
    }
  }

  lemma {:induction false} StoredContents(objects: map<Path, GitObject>, paths: seq<Path>)
    requires AllStored(objects, paths)
    ensures Contents(paths, FramesFor(objects, paths)) == map p | p in paths && p in objects :: objects[p].content
  {
    if paths != [] {
      var n := |paths| - 1;
      StoredContents(objects, paths[..n]);
      assert FramesFor(objects, paths)[..n] == FramesFor(objects, paths[..n]);
      assert paths == paths[..n] + [paths[n]];
    }
  }

  lemma {:induction false} BatchPrefix(objects: map<Path, GitObject>, ref: Bytes, paths: seq<Path>, k: nat)
    requires k <= |paths|
    ensures Batch(objects, ref, paths[..k]) <= Batch(objects, ref, paths)
  {
    if k < |paths| {
      BatchPrefix(objects, ref, paths[..|paths| - 1], k);
      assert paths[..|paths| - 1][..k] == paths[..k];
    } else {
      assert paths[..k] == paths;
    }
  }

  // The reading fails at the first path that is not stored.
  lemma MissingReplyFails(objects: map<Path, GitObject>, ref: Bytes, paths: seq<Path>, k: nat)
    requires AllWellFormed(objects) && k < |paths| && AllStored(objects, paths[..k]) && paths[k] !in objects
    requires '\n' !in ref && '\n' !in paths[k]
    ensures FailsAfter(FramesFor(objects, paths[..k]), Batch(objects, ref, paths), paths, NotAtRef(paths[k]))
  {
    hide Framed, Batch, AnnouncedSize, WellFormed;
    var output, before := Batch(objects, ref, paths), Batch(objects, ref, paths[..k]);
    var header := ref + ":" + paths[k] + MISSING;
    assert header + "\n" == ref + ":" + paths[k] + " missing\n";
    ReplyStands(objects, ref, paths, k);
    RepliesAreFramed(objects, ref, paths[..k], output);
    LineStands(output, |before|, header);
    assert header[|header| - |MISSING|..] == MISSING;
  }

  lemma ReplyStands(objects: map<Path, GitObject>, ref: Bytes, paths: seq<Path>, k: nat)
    requires k < |paths|
    ensures Batch(objects, ref, paths[..k]) <= Batch(objects, ref, paths)
    ensures Reply(objects, ref, paths[k]) <= Batch(objects, ref, paths)[|Batch(objects, ref, paths[..k])|..]
  {
    hide Reply;
    BatchPrefix(objects, ref, paths, k + 1);
    assert paths[..k + 1][..k] == paths[..k];
    var before, reply := Batch(objects, ref, paths[..k]), Reply(objects, ref, paths[k]);
    var output := Batch(objects, ref, paths);
    assert before + reply == output[..|before + reply|];
    assert reply == output[|before|..][..|reply|];
  }

  lemma LineStands(output: Bytes, offset: nat, line: Bytes)
    requires offset <= |output| && line + "\n" <= output[offset..] && '\n' !in line
    ensures var end := offset + |line|;
            end < |output| && output[offset..end] == line && IndexFrom(output, '\n', offset) == end
  {
    var bytes := line + "\n";
    assert bytes == output[offset..][..|bytes|];
    assert bytes[|line|] == '\n' && bytes[..|line|] == line;
    assert output[offset..][..|line|] == bytes[..|line|];
    LineEnds(output, offset, line);
  }

  lemma LineEnds(output: Bytes, offset: nat, line: Bytes)
    requires offset + |line| < |output| && output[offset..offset + |line|] == line
    requires '\n' !in line && output[offset + |line|] == '\n'
    ensures IndexFrom(output, '\n', offset) == offset + |line|
  {
    forall k | offset <= k < offset + |line| ensures output[k] != '\n' {
      assert output[k] == line[k - offset];
    }
  }

  /**
   Reading back what git wrote. All paths stored: each path's exact content, newlines included, and the
   reading ends at the end of the output. Otherwise: the first path that is not stored is reported.
   */
  method ReadFilesAtRef(objects: map<Path, GitObject>, ref: Bytes, paths: seq<Path>)
    returns (r: Result<map<Path, Bytes>, Failure>, offset: nat)
    requires AllWellFormed(objects) && '\n' !in ref && forall i :: 0 <= i < |paths| ==> '\n' !in paths[i]
    ensures r.Ok? <==> AllStored(objects, paths)
    ensures r.Ok? ==> r.value == map p | p in paths && p in objects :: objects[p].content
    ensures r.Ok? ==> offset == |Batch(objects, ref, paths)|
    ensures r.Err? ==> exists k ::
              && 0 <= k < |paths| && AllStored(objects, paths[..k]) && paths[k] !in objects
              && r.error == NotAtRef(paths[k])
  {
    hide Framed, Fails, Batch, Contents, Length;
    var output := Batch(objects, ref, paths);
    r, offset := ReadGitFiles(output, paths);
    if AllStored(objects, paths) {
      ghost var stored := FramesFor(objects, paths);
      RepliesAreFramed(objects, ref, paths, output);
      StoredContents(objects, paths);
      if r.Err? {
        ghost var frames :| FailsAfter(frames, output, paths, r.error);
        FailureExcludes(frames, r.error, stored, output, paths);
        assert false;
      }
      ghost var frames :|
        && |frames| == |paths| && Framed(frames, output) && r.value == Contents(paths, frames)
        && offset == Length(frames);
      FramesAreUnique(frames, stored, output);
      assert stored[..|frames|] == stored;
    } else {
      ghost var k := FirstMissing(objects, paths);
      ghost var stored := FramesFor(objects, paths[..k]);
      MissingReplyFails(objects, ref, paths, k);
      if r.Ok? {
        ghost var frames :| |frames| == |paths| && Framed(frames, output);
        FailureExcludes(stored, NotAtRef(paths[k]), frames, output, paths);
        assert false;
      }
      ghost var frames :| FailsAfter(frames, output, paths, r.error);
      FailureIsUnique(frames, r.error, stored, NotAtRef(paths[k]), output, paths);
    }
  }

  lemma {:induction false} FirstMissing(objects: map<Path, GitObject>, paths: seq<Path>) returns (k: nat)
    requires !AllStored(objects, paths)
    ensures k < |paths| && AllStored(objects, paths[..k]) && paths[k] !in objects
  {
    var n := |paths| - 1;
    if AllStored(objects, paths[..n]) {
      k := n;
    } else {
      k := FirstMissing(objects, paths[..n]);
      assert paths[..n][..k] == paths[..k];
    }
  }
}
