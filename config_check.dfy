/** `ovpn_config_check.py`: the inline-section extractor used to pull the
    embedded certificates out of a `.ovpn` file, and the argument list of
    an `openssl` invocation. */
module ConfigCheck {
  import opened Text

  /** `OPENSSL_PATH`. */
  const OpensslPath: string := @"C:\Users\rambo\OneDrive\Desktop\workspace\OpenVPN_Setup_w_GUI\needed_binaries\openssl.exe"

  /** `openssl_command(*args)`: the executable followed by the arguments. */
  function OpensslCommand(args: seq<string>): (command: seq<string>)
    ensures |command| == |args| + 1
    ensures command[0] == OpensslPath
    ensures command[1..] == args
  {
    [OpensslPath] + args
  }

  function StartTag(tag: string): string { "<" + tag + ">" }

  function EndTag(tag: string): string { "</" + tag + ">" }

  /** How the loop of `extract_inline_section` treats a line: by what it
      is once stripped. */
  datatype LineKind = StartLine | EndLine | PlainLine

  function KindOf(line: string, tag: string): LineKind
  {
    var stripped := Strip(line);
    if stripped == StartTag(tag) then StartLine
    else if stripped == EndTag(tag) then EndLine
    else PlainLine
  }

  /** A line that, stripped, is the start or the end tag. */
  predicate IsTagLine(line: string, tag: string)
  {
    KindOf(line, tag) != PlainLine
  }

  /** The lines the loop of `extract_inline_section` appends, reading
      `lines` with `in_section` initially `inside`. */
  function Copied(lines: seq<string>, tag: string, inside: bool): seq<string>
  {
    if lines == [] then []
    else
      match KindOf(lines[0], tag)
      case StartLine => Copied(lines[1..], tag, true)
      case EndLine => Copied(lines[1..], tag, false)
      case PlainLine => (if inside then [lines[0]] else []) + Copied(lines[1..], tag, inside)
  }

  /** The value of `in_section` after reading `lines`. */
  function InsideAfter(lines: seq<string>, tag: string, inside: bool): bool
  {
    if lines == [] then inside
    else
      match KindOf(lines[0], tag)
      case StartLine => InsideAfter(lines[1..], tag, true)
      case EndLine => InsideAfter(lines[1..], tag, false)
      case PlainLine => InsideAfter(lines[1..], tag, inside)
  }

  /** `extract_inline_section` on the text of the file. */
  method ExtractInlineSection(content: string, tag: string) returns (section: string)
    ensures section == Concat(Copied(SplitLines(content), tag, false))
  {
    var lines := SplitLines(content);
    var startTag := StartTag(tag);
    var endTag := EndTag(tag);
    var inSection := false;
    var sectionLines: seq<string> := [];
    var i := 0;
    while i < |lines|
      invariant 0 <= i <= |lines|
      invariant sectionLines + Copied(lines[i..], tag, inSection) == Copied(lines, tag, false)
    {
      var line := lines[i];
      CopiedStep(lines, i, tag, inSection);
      var lineStrip := Strip(line);
      if lineStrip == startTag {
        inSection := true;
      } else if lineStrip == endTag {
        inSection := false;
      } else if inSection {
        AppendAssoc(sectionLines, [line], Copied(lines[i + 1..], tag, true));
        sectionLines := sectionLines + [line];
      } else {
        assert [] + Copied(lines[i + 1..], tag, false) == Copied(lines[i + 1..], tag, false);
      }
      i := i + 1;
    }
    assert lines[|lines|..] == [];
    assert sectionLines == Copied(lines, tag, false);
    section := Concat(sectionLines);
  }

  /** One step of the loop of `extract_inline_section`. */
  lemma CopiedStep(lines: seq<string>, i: nat, tag: string, inside: bool)
    requires i < |lines|
    ensures Copied(lines[i..], tag, inside) ==
      if Strip(lines[i]) == StartTag(tag) then Copied(lines[i + 1..], tag, true)
      else if Strip(lines[i]) == EndTag(tag) then Copied(lines[i + 1..], tag, false)
      else (if inside then [lines[i]] else []) + Copied(lines[i + 1..], tag, inside)
  {
    assert lines[i..][0] == lines[i] && lines[i..][1..] == lines[i + 1..];
  }

  // ---------------------------------------------------------------------
  // What the extracted section is
  // ---------------------------------------------------------------------

  /** Reading two pieces one after the other: the copied lines of the
      second piece depend only on the state the first leaves. */
  lemma {:induction false} CopiedAppend(a: seq<string>, b: seq<string>, tag: string, inside: bool)
    ensures Copied(a + b, tag, inside) == Copied(a, tag, inside) + Copied(b, tag, InsideAfter(a, tag, inside))
    ensures InsideAfter(a + b, tag, inside) == InsideAfter(b, tag, InsideAfter(a, tag, inside))
  {
    if a != [] {
      assert (a + b)[0] == a[0];
      assert (a + b)[1..] == a[1..] + b;
      match KindOf(a[0], tag)
      case StartLine => CopiedAppend(a[1..], b, tag, true);
      case EndLine => CopiedAppend(a[1..], b, tag, false);
      case PlainLine => CopiedAppend(a[1..], b, tag, inside);
    } else {
      assert a + b == b;
    }
  }

  /** Lines that are not tag lines are copied verbatim when inside a
      section, dropped when outside, and the state does not change. */
  lemma {:induction false} CopiedPlain(body: seq<string>, tag: string, inside: bool)
    requires forall i :: 0 <= i < |body| ==> !IsTagLine(body[i], tag)
    ensures Copied(body, tag, inside) == if inside then body else []
    ensures InsideAfter(body, tag, inside) == inside
  {
    if body != [] {
      assert !IsTagLine(body[0], tag);
      CopiedPlain(body[1..], tag, inside);
      if inside {
        assert body == [body[0]] + body[1..];
      }
    }
  }

  /** A section `<tag>` .. body .. `</tag>` contributes exactly its body,
      unstripped, and leaves the reader outside. */
  lemma Block(body: seq<string>, tag: string, inside: bool, start: string, end: string)
    requires KindOf(start, tag) == StartLine && KindOf(end, tag) == EndLine
    requires forall i :: 0 <= i < |body| ==> !IsTagLine(body[i], tag)
    ensures Copied([start] + body + [end], tag, inside) == body
    ensures !InsideAfter([start] + body + [end], tag, inside)
  {
    var lines := [start] + body + [end];
    var tail := body + [end];
    assert lines[0] == start && lines[1..] == tail;
    CopiedPlain(body, tag, true);
    CopiedAppend(body, [end], tag, true);
    assert [end][0] == end && [end][1..] == [];
    assert Copied([end], tag, true) == [];
    assert !InsideAfter([end], tag, true);
    assert Copied(tail, tag, true) == body + [];
    assert body + [] == body;
  }

  /** An unterminated section runs to the end of the input. */
  lemma Unterminated(body: seq<string>, tag: string, inside: bool, start: string)
    requires KindOf(start, tag) == StartLine
    requires forall i :: 0 <= i < |body| ==> !IsTagLine(body[i], tag)
    ensures Copied([start] + body, tag, inside) == body
  {
    assert ([start] + body)[1..] == body;
    CopiedPlain(body, tag, true);
  }

  /** Lines without a start tag, then a section: only the section's body
      is copied, and the reader is left outside. */
  lemma NothingThenBlock(pre: seq<string>, body: seq<string>, tag: string, start: string, end: string)
    requires KindOf(start, tag) == StartLine && KindOf(end, tag) == EndLine
    requires forall i :: 0 <= i < |body| ==> !IsTagLine(body[i], tag)
    requires forall i :: 0 <= i < |pre| ==> KindOf(pre[i], tag) != StartLine
    ensures Copied(pre + ([start] + body + [end]), tag, false) == body
    ensures !InsideAfter(pre + ([start] + body + [end]), tag, false)
  {
    NoStartCopiesNothing(pre, tag);
    Block(body, tag, false, start, end);
    CopiedAppend(pre, [start] + body + [end], tag, false);
  }

  /** Sections are concatenated in file order: once the reader is outside
      a section, what follows is read afresh. */
  lemma SectionsConcatenate(x: seq<string>, y: seq<string>, tag: string)
    requires !InsideAfter(x, tag, false)
    ensures Copied(x + y, tag, false) == Copied(x, tag, false) + Copied(y, tag, false)
  {
    CopiedAppend(x, y, tag, false);
  }

  /** Without a start tag nothing is copied: the section is empty. */
  lemma {:induction false} NoStartCopiesNothing(lines: seq<string>, tag: string)
    requires forall i :: 0 <= i < |lines| ==> KindOf(lines[i], tag) != StartLine
    ensures Copied(lines, tag, false) == []
    ensures !InsideAfter(lines, tag, false)
  {
    if lines != [] {
      assert KindOf(lines[0], tag) != StartLine;
      NoStartCopiesNothing(lines[1..], tag);
    }
  }

  /** Every copied line is a line of the input that is not a tag line. */
  lemma {:induction false} CopiedAreNotTags(lines: seq<string>, tag: string, inside: bool)
    ensures forall x :: x in Copied(lines, tag, inside) ==> x in lines && !IsTagLine(x, tag)
  {
    if lines != [] {
      CopiedAreNotTags(lines[1..], tag, true);
      CopiedAreNotTags(lines[1..], tag, false);
      CopiedAreNotTags(lines[1..], tag, inside);
      forall x | x in lines[1..]
        ensures x in lines
      {
      }
    }
  }

  /** On a text without a start-tag line the extracted section is `""`. */
  lemma NoStartTagGivesEmpty(content: string, tag: string)
    requires forall i :: 0 <= i < |SplitLines(content)| ==> KindOf(SplitLines(content)[i], tag) != StartLine
    ensures Concat(Copied(SplitLines(content), tag, false)) == ""
  {
    NoStartCopiesNothing(SplitLines(content), tag);
  }
}
