/** `EZ-OpenVPN-Toolkit/openvpn_config.py`: the pieces of the server and
    client configuration writers that compute something: the cipher guard,
    the `data-ciphers` value, the inline sections, the path normalisation,
    and the rewrite of the timestamp block of `server.conf`. */
module OpenvpnConfig {
  import opened Text
  import opened ConfigCheck

  // ---------------------------------------------------------------------
  // The cipher guard and the data-ciphers line
  // ---------------------------------------------------------------------

  /** The list `data_ciphers` after `if cipher not in data_ciphers:
      data_ciphers.insert(0, cipher)`. */
  function WithCipher(ciphers: seq<string>, cipher: string): (r: seq<string>)
    ensures cipher in r
    ensures cipher in ciphers ==> r == ciphers
    ensures cipher !in ciphers ==> |r| == |ciphers| + 1 && r[0] == cipher && r[1..] == ciphers
  {
    if cipher in ciphers then ciphers else [cipher] + ciphers
  }

  /** The guard adds nothing the second time, and it never loses or
      duplicates a cipher. */
  lemma WithCipherIdempotent(ciphers: seq<string>, cipher: string)
    ensures WithCipher(WithCipher(ciphers, cipher), cipher) == WithCipher(ciphers, cipher)
    ensures forall c :: c in WithCipher(ciphers, cipher) <==> c in ciphers || c == cipher
    ensures NoDuplicates(ciphers) ==> NoDuplicates(WithCipher(ciphers, cipher))
  {
    if cipher !in ciphers {
      var r := WithCipher(ciphers, cipher);
      forall i, j | 0 <= i < j < |r| && NoDuplicates(ciphers)
        ensures r[i] != r[j]
      {
        assert r[j] == ciphers[j - 1];
        if i > 0 {
          assert r[i] == ciphers[i - 1];
        }
      }
    }
  }

  /** The caller's list object `data_ciphers`, which the guard changes in
      place. */
  class CipherList {
    var items: seq<string>

    constructor(items: seq<string>)
      ensures this.items == items
    {
      this.items := items;
    }

    /** The guard in `generate_server_conf` and `generate_client_ovpn`:
        insert the cipher at the front when it is missing. */
    method EnsureCipher(cipher: string)
      modifies this
      ensures items == WithCipher(old(items), cipher)
    {
      if cipher !in items {
        items := [cipher] + items;
      }
    }
  }

  /** The value written after `data-ciphers `: the list joined with `:`. */
  function DataCiphersValue(ciphers: seq<string>): string
  {
    Join(ciphers, ':')
  }

  /** OpenVPN reads the list back by splitting on `:`; for cipher names
      without a colon that gives the list, in order. */
  lemma DataCiphersRoundTrip(ciphers: seq<string>)
    requires |ciphers| >= 1
    requires forall i :: 0 <= i < |ciphers| ==> ':' !in ciphers[i]
    ensures Split(DataCiphersValue(ciphers), ':') == ciphers
  {
    SplitJoin(ciphers, ':');
  }

  // ---------------------------------------------------------------------
  // Inline sections
  // ---------------------------------------------------------------------

  /** What `inline_file(tag, path)` writes: the start tag line, the file
      content, the end tag line and an empty line. */
  function InlineFile(tag: string, content: string): string
  {
    StartTag(tag) + "\n" + content + EndTag(tag) + "\n\n"
  }

  /** A tag line as written, `<tag>\n` or `</tag>\n`, strips to the tag. */
  lemma TagLineStrips(t: string)
    requires |t| >= 2 && t[0] == '<' && t[|t| - 1] == '>'
    ensures Strip(t + "\n") == t
  {
    StripKeepsCore(t, "\n");
  }

  /** The lines of what `inline_file` writes. */
  function InlineLines(tag: string, lines: seq<string>): seq<string>
  {
    [StartTag(tag) + "\n"] + lines + [EndTag(tag) + "\n", "\n"]
  }

  /** The text `inline_file` writes is the concatenation of those lines. */
  lemma InlineFileLines(tag: string, lines: seq<string>)
    ensures Concat(InlineLines(tag, lines)) == InlineFile(tag, Concat(lines))
  {
    var start := StartTag(tag) + "\n";
    var end := EndTag(tag) + "\n";
    var tail := [end, "\n"];
    assert InlineLines(tag, lines) == ([start] + lines) + tail;
    ConcatAppend([start] + lines, tail);
    ConcatAppend([start], lines);
    assert Concat([start]) == start + Concat([]);
    assert tail[1..] == ["\n"] && ["\n"][1..] == [];
    assert Concat(tail) == end + ("\n" + []);
    AppendAssoc(start, Concat(lines), end + "\n");
    AppendAssoc(start + Concat(lines), EndTag(tag), "\n\n");
  }

  /** A text without a newline, followed by one, is a whole line. */
  lemma NewlineEndsLine(t: string)
    requires '\n' !in t
    ensures IsLine(t + "\n")
  {
    assert (t + "\n")[..|t|] == t;
  }

  /** Every piece is a whole line. */
  predicate WholeLines(pieces: seq<string>)
  {
    forall i :: 0 <= i < |pieces| ==> IsLine(pieces[i])
  }

  /** Two sequences of whole lines make one. */
  lemma WholeLinesAppend(a: seq<string>, b: seq<string>)
    requires WholeLines(a) && WholeLines(b)
    ensures WholeLines(a + b)
  {
    forall i | 0 <= i < |a + b|
      ensures IsLine((a + b)[i])
    {
      if i >= |a| {
        assert (a + b)[i] == b[i - |a|];
      }
    }
  }

  /** The lines of the text `inline_file` writes, when the content is made
      of whole lines. */
  lemma InlineFileSplits(tag: string, lines: seq<string>)
    requires '\n' !in tag
    requires WholeLines(lines)
    ensures SplitLines(InlineFile(tag, Concat(lines))) == InlineLines(tag, lines)
  {
    var start := StartTag(tag) + "\n";
    var end := EndTag(tag) + "\n";
    assert '\n' !in StartTag(tag);
    NewlineEndsLine(StartTag(tag));
    assert '\n' !in EndTag(tag);
    NewlineEndsLine(EndTag(tag));
    assert IsLine("\n") by { assert "\n"[..0] == []; }
    assert WholeLines([start]);
    assert WholeLines([end, "\n"]);
    WholeLinesAppend([start], lines);
    WholeLinesAppend([start] + lines, [end, "\n"]);
    assert InlineLines(tag, lines) == ([start] + lines) + [end, "\n"];
    InlineFileLines(tag, lines);
    SplitLinesOfLines(InlineLines(tag, lines));
  }

  /** The start tag line `inline_file` writes opens a section. */
  lemma StartTagLine(tag: string)
    ensures KindOf(StartTag(tag) + "\n", tag) == StartLine
  {
    TagLineStrips(StartTag(tag));
  }

  /** The end tag line `inline_file` writes closes a section. */
  lemma EndTagLine(tag: string)
    ensures KindOf(EndTag(tag) + "\n", tag) == EndLine
  {
    TagLineStrips(EndTag(tag));
    assert |EndTag(tag)| != |StartTag(tag)|;
  }

  /** Extracting a section from what `inline_file` wrote gives the file
      content back, when the content is made of whole lines none of which
      is a tag line of that tag. */
  lemma InlineFileRoundTrip(tag: string, lines: seq<string>)
    requires '\n' !in tag
    requires WholeLines(lines)
    requires forall i :: 0 <= i < |lines| ==> !IsTagLine(lines[i], tag)
    ensures Concat(Copied(SplitLines(InlineFile(tag, Concat(lines))), tag, false)) == Concat(lines)
  {
    var start := StartTag(tag) + "\n";
    var end := EndTag(tag) + "\n";
    StartTagLine(tag);
    EndTagLine(tag);
    InlineFileSplits(tag, lines);
    var block := [start] + lines + [end];
    assert InlineLines(tag, lines) == block + ["\n"];
    Block(lines, tag, false, start, end);
    CopiedAppend(block, ["\n"], tag, false);
    EmptyLineCopiesNothing(tag);
    assert Copied(InlineLines(tag, lines), tag, false) == lines + [];
    assert lines + [] == lines;
  }

  /** The empty line after the end tag adds nothing. */
  lemma EmptyLineCopiesNothing(tag: string)
    ensures Copied(["\n"], tag, false) == []
  {
    StripKeepsCore([], "\n");
    assert [] + "\n" == "\n";
    assert ["\n"][1..] == [];
  }

  // ---------------------------------------------------------------------
  // Path normalisation
  // ---------------------------------------------------------------------

  /** `path.replace("\\", "/")`, applied to the four key and certificate
      paths written into the client configuration. */
  function NormalizePath(path: string): string
  {
    ReplaceChar(path, '\\', '/')
  }

  /** No backslash is left, every slash is kept, every other character is
      unchanged, and normalising twice is normalising once. */
  lemma NormalizePathMeaning(path: string)
    ensures '\\' !in NormalizePath(path)
    ensures |NormalizePath(path)| == |path|
    ensures forall i :: 0 <= i < |path| && path[i] != '\\' ==> NormalizePath(path)[i] == path[i]
    ensures forall i :: 0 <= i < |path| && path[i] == '\\' ==> NormalizePath(path)[i] == '/'
    ensures NormalizePath(NormalizePath(path)) == NormalizePath(path)
  {
    var r := NormalizePath(path);
    forall i | 0 <= i < |r|
      ensures r[i] != '\\'
    {
    }
    var rr := NormalizePath(r);
    assert |rr| == |r|;
    forall i | 0 <= i < |r|
      ensures rr[i] == r[i]
    {
    }
  }

  // ---------------------------------------------------------------------
  // update_timestamp
  // ---------------------------------------------------------------------

  const TimestampStart: string := "###" + " Timestamp of Server Configuration Creation " + "###"
  const TimestampEnd: string := "###" + " End of Timestamp of Server Configuration Creation " + "###"

  /** The line written for a formatted time `%Y-%m-%d %H:%M:%S`. */
  function TimestampLine(time: string): string
  {
    "# " + time + " #\n"
  }

  /** How the loop of `update_timestamp` treats a line: by what it is once
      stripped. */
  datatype Marker = BlockStart | BlockEnd | Outside

  function MarkerOf(line: string): Marker
  {
    var stripped := Strip(line);
    if stripped == TimestampStart then BlockStart
    else if stripped == TimestampEnd then BlockEnd
    else Outside
  }

  /** The lines `update_timestamp` writes for `lines`, reading with
      `inside_timestamp` initially `inside`. */
  function Restamped(lines: seq<string>, stamp: string, inside: bool): seq<string>
  {
    if lines == [] then []
    else
      match MarkerOf(lines[0])
      case BlockStart => [lines[0], stamp] + Restamped(lines[1..], stamp, true)
      case BlockEnd => [lines[0]] + Restamped(lines[1..], stamp, false)
      case Outside => (if inside then [] else [lines[0]]) + Restamped(lines[1..], stamp, inside)
  }

  /** `update_timestamp` on the lines of the file, the new timestamp line
      given. */
  method UpdateTimestamp(configLines: seq<string>, stamp: string) returns (updated: seq<string>)
    ensures updated == Restamped(configLines, stamp, false)
  {
    updated := [];
    var insideTimestamp := false;
    var i := 0;
    while i < |configLines|
      invariant 0 <= i <= |configLines|
      invariant updated + Restamped(configLines[i..], stamp, insideTimestamp) == Restamped(configLines, stamp, false)
    {
      var line := configLines[i];
      RestampedStep(configLines, i, stamp, insideTimestamp);
      ghost var next := configLines[i + 1..];
      var stripped := Strip(line);
      if stripped == TimestampStart {
        AppendAssoc(updated, [line, stamp], Restamped(next, stamp, true));
        insideTimestamp := true;
        updated := updated + [line, stamp];
      } else if stripped == TimestampEnd {
        AppendAssoc(updated, [line], Restamped(next, stamp, false));
        insideTimestamp := false;
        updated := updated + [line];
      } else if !insideTimestamp {
        AppendAssoc(updated, [line], Restamped(next, stamp, false));
        updated := updated + [line];
      } else {
        assert [] + Restamped(next, stamp, true) == Restamped(next, stamp, true);
      }
      i := i + 1;
    }
    assert configLines[|configLines|..] == [];
    assert updated + [] == updated;
  }

  /** One step of the loop of `update_timestamp`. */
  lemma RestampedStep(lines: seq<string>, i: nat, stamp: string, inside: bool)
    requires i < |lines|
    ensures Restamped(lines[i..], stamp, inside) ==
      if Strip(lines[i]) == TimestampStart then [lines[i], stamp] + Restamped(lines[i + 1..], stamp, true)
      else if Strip(lines[i]) == TimestampEnd then [lines[i]] + Restamped(lines[i + 1..], stamp, false)
      else (if inside then [] else [lines[i]]) + Restamped(lines[i + 1..], stamp, inside)
  {
    assert lines[i..][0] == lines[i] && lines[i..][1..] == lines[i + 1..];
  }

  /** Without a start marker the file is written back unchanged. */
  lemma {:induction false} NoStartMarkerKeepsLines(lines: seq<string>, stamp: string)
    requires forall i :: 0 <= i < |lines| ==> MarkerOf(lines[i]) != BlockStart
    ensures Restamped(lines, stamp, false) == lines
  {
    if lines != [] {
      assert MarkerOf(lines[0]) != BlockStart;
      NoStartMarkerKeepsLines(lines[1..], stamp);
      assert lines == [lines[0]] + lines[1..];
    }
  }

  /** The value of `inside_timestamp` after reading `lines`. */
  function InsideAfterStamp(lines: seq<string>, inside: bool): bool
  {
    if lines == [] then inside
    else
      match MarkerOf(lines[0])
      case BlockStart => InsideAfterStamp(lines[1..], true)
      case BlockEnd => InsideAfterStamp(lines[1..], false)
      case Outside => InsideAfterStamp(lines[1..], inside)
  }

  /** Reading two pieces one after the other: what the second piece gives
      depends only on the state the first leaves. */
  lemma {:induction false} RestampedAppend(a: seq<string>, b: seq<string>, stamp: string, inside: bool)
    ensures Restamped(a + b, stamp, inside)
         == Restamped(a, stamp, inside) + Restamped(b, stamp, InsideAfterStamp(a, inside))
  {
    if a == [] {
      assert a + b == b;
    } else {
      assert (a + b)[0] == a[0];
      assert (a + b)[1..] == a[1..] + b;
      match MarkerOf(a[0])
      case BlockStart =>
        RestampedAppend(a[1..], b, stamp, true);
        AppendAssoc([a[0], stamp], Restamped(a[1..], stamp, true), Restamped(b, stamp, InsideAfterStamp(a, inside)));
      case BlockEnd =>
        RestampedAppend(a[1..], b, stamp, false);
        AppendAssoc([a[0]], Restamped(a[1..], stamp, false), Restamped(b, stamp, InsideAfterStamp(a, inside)));
      case Outside =>
        RestampedAppend(a[1..], b, stamp, inside);
        AppendAssoc(if inside then [] else [a[0]], Restamped(a[1..], stamp, inside),
                    Restamped(b, stamp, InsideAfterStamp(a, inside)));
    }
  }

  /** Lines outside the block are copied as they are when outside, dropped
      when inside, and leave the state as it was. */
  lemma {:induction false} UnmarkedLines(lines: seq<string>, stamp: string, inside: bool)
    requires forall i :: 0 <= i < |lines| ==> MarkerOf(lines[i]) == Outside
    ensures Restamped(lines, stamp, inside) == if inside then [] else lines
    ensures InsideAfterStamp(lines, inside) == inside
  {
    if lines != [] {
      assert MarkerOf(lines[0]) == Outside;
      UnmarkedLines(lines[1..], stamp, inside);
      assert lines == [lines[0]] + lines[1..];
    }
  }

  /** The block rewrite: the start marker is kept and followed by exactly
      the new timestamp line, the old lines of the block are dropped, the
      end marker is kept, and the reader is left outside the block. */
  lemma BlockIsRestamped(body: seq<string>, start: string, end: string, stamp: string, inside: bool)
    requires MarkerOf(start) == BlockStart && MarkerOf(end) == BlockEnd
    requires forall i :: 0 <= i < |body| ==> MarkerOf(body[i]) == Outside
    ensures Restamped([start] + body + [end], stamp, inside) == [start, stamp, end]
    ensures !InsideAfterStamp([start] + body + [end], inside)
  {
    var block := [start] + body + [end];
    var tail := body + [end];
    assert block[0] == start && block[1..] == tail;
    UnmarkedLines(body, stamp, true);
    RestampedAppend(body, [end], stamp, true);
    InsideAfterAppend(body, [end], true);
    assert [end][0] == end && [end][1..] == [];
    assert Restamped([end], stamp, true) == [end];
    assert !InsideAfterStamp([end], true);
    assert Restamped(tail, stamp, true) == [end];
    assert !InsideAfterStamp(tail, true);
    assert Restamped(block, stamp, inside) == [start, stamp] + [end];
  }

  lemma {:induction false} InsideAfterAppend(a: seq<string>, b: seq<string>, inside: bool)
    ensures InsideAfterStamp(a + b, inside) == InsideAfterStamp(b, InsideAfterStamp(a, inside))
  {
    if a == [] {
      assert a + b == b;
    } else {
      assert (a + b)[0] == a[0];
      assert (a + b)[1..] == a[1..] + b;
      match MarkerOf(a[0])
      case BlockStart => InsideAfterAppend(a[1..], b, true);
      case BlockEnd => InsideAfterAppend(a[1..], b, false);
      case Outside => InsideAfterAppend(a[1..], b, inside);
    }
  }

  /** Every line outside the timestamp block is kept, in order: the lines
      before the block, then the rewritten block, then the rest rewritten
      in its turn. */
  lemma LinesAroundBlockKept(before: seq<string>, body: seq<string>, after: seq<string>,
                             start: string, end: string, stamp: string)
    requires MarkerOf(start) == BlockStart && MarkerOf(end) == BlockEnd
    requires forall i :: 0 <= i < |before| ==> MarkerOf(before[i]) == Outside
    requires forall i :: 0 <= i < |body| ==> MarkerOf(body[i]) == Outside
    ensures Restamped(before + ([start] + body + [end]) + after, stamp, false)
         == before + [start, stamp, end] + Restamped(after, stamp, false)
  {
    var block := [start] + body + [end];
    UnmarkedLines(before, stamp, false);
    BlockIsRestamped(body, start, end, stamp, false);
    RestampedAppend(before, block, stamp, false);
    InsideAfterAppend(before, block, false);
    RestampedAppend(before + block, after, stamp, false);
  }

  /** The rewrite of a line followed by more lines. */
  lemma RestampedCons(x: string, rest: seq<string>, stamp: string, inside: bool)
    ensures Restamped([x] + rest, stamp, inside) ==
      if MarkerOf(x) == BlockStart then [x, stamp] + Restamped(rest, stamp, true)
      else if MarkerOf(x) == BlockEnd then [x] + Restamped(rest, stamp, false)
      else (if inside then [] else [x]) + Restamped(rest, stamp, inside)
  {
    assert ([x] + rest)[0] == x && ([x] + rest)[1..] == rest;
  }

  /** The rewrite of a start marker followed by more lines. */
  lemma RestampedAtStart(x: string, rest: seq<string>, stamp: string, inside: bool)
    requires MarkerOf(x) == BlockStart
    ensures Restamped([x] + rest, stamp, inside) == [x, stamp] + Restamped(rest, stamp, true)
  {
    assert ([x] + rest)[0] == x && ([x] + rest)[1..] == rest;
  }

  /** The rewrite of a line inside the block followed by more lines. */
  lemma RestampedDropped(x: string, rest: seq<string>, stamp: string)
    requires MarkerOf(x) == Outside
    ensures Restamped([x] + rest, stamp, true) == Restamped(rest, stamp, true)
  {
    assert ([x] + rest)[0] == x && ([x] + rest)[1..] == rest;
    assert [] + Restamped(rest, stamp, true) == Restamped(rest, stamp, true);
  }

  /** Idempotence at a start marker, given idempotence after it. */
  lemma RestampTwiceAtStart(x: string, rest: seq<string>, stamp: string, inside: bool)
    requires MarkerOf(x) == BlockStart && MarkerOf(stamp) == Outside
    requires Restamped(Restamped(rest, stamp, true), stamp, true) == Restamped(rest, stamp, true)
    ensures Restamped(Restamped([x] + rest, stamp, inside), stamp, inside) == Restamped([x] + rest, stamp, inside)
  {
    var y := Restamped(rest, stamp, true);
    var z := [stamp] + y;
    RestampedAtStart(x, rest, stamp, inside);
    AppendAssoc([x], [stamp], y);
    assert [x] + [stamp] == [x, stamp];
    assert [x, stamp] + y == [x] + z;
    RestampedAtStart(x, z, stamp, inside);
    RestampedDropped(stamp, y, stamp);
  }

  /** Idempotence at an end marker, given idempotence after it. */
  lemma RestampTwiceAtEnd(x: string, rest: seq<string>, stamp: string, inside: bool)
    requires MarkerOf(x) == BlockEnd
    requires Restamped(Restamped(rest, stamp, false), stamp, false) == Restamped(rest, stamp, false)
    ensures Restamped(Restamped([x] + rest, stamp, inside), stamp, inside) == Restamped([x] + rest, stamp, inside)
  {
    RestampedCons(x, rest, stamp, inside);
    RestampedCons(x, Restamped(rest, stamp, false), stamp, inside);
  }

  /** Idempotence at a line outside the markers, given idempotence after it. */
  lemma RestampTwiceOutside(x: string, rest: seq<string>, stamp: string, inside: bool)
    requires MarkerOf(x) == Outside
    requires Restamped(Restamped(rest, stamp, inside), stamp, inside) == Restamped(rest, stamp, inside)
    ensures Restamped(Restamped([x] + rest, stamp, inside), stamp, inside) == Restamped([x] + rest, stamp, inside)
  {
    var y := Restamped(rest, stamp, inside);
    RestampedCons(x, rest, stamp, inside);
    if inside {
      assert [] + y == y;
    } else {
      RestampedCons(x, y, stamp, inside);
    }
  }

  /** Writing the timestamp twice with the same line is writing it once,
      provided the timestamp line is not itself a marker. */
  lemma {:induction false} RestampIdempotent(lines: seq<string>, stamp: string, inside: bool)
    requires MarkerOf(stamp) == Outside
    ensures Restamped(Restamped(lines, stamp, inside), stamp, inside) == Restamped(lines, stamp, inside)
  {
    if lines != [] {
      var x := lines[0];
      var rest := lines[1..];
      assert lines == [x] + rest;
      match MarkerOf(x)
      case BlockStart =>
        RestampIdempotent(rest, stamp, true);
        RestampTwiceAtStart(x, rest, stamp, inside);
      case BlockEnd =>
        RestampIdempotent(rest, stamp, false);
        RestampTwiceAtEnd(x, rest, stamp, inside);
      case Outside =>
        RestampIdempotent(rest, stamp, inside);
        RestampTwiceOutside(x, rest, stamp, inside);
    }
  }

  /** A formatted time without `#` gives a timestamp line that is not a
      marker, so the rewrite is idempotent for the lines it writes. */
  lemma TimestampLineIsNotMarker(time: string)
    requires '#' !in time
    ensures MarkerOf(TimestampLine(time)) == Outside
  {
    var core := "# " + time + " #";
    assert TimestampLine(time) == core + "\n";
    assert core[0] == '#' && core[|core| - 1] == '#';
    StripKeepsCore(core, "\n");
    assert core[1] == ' ';
    assert TimestampStart[1] == '#' && TimestampEnd[1] == '#';
  }
}
