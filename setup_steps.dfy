/** `main.py`: the decision steps of the interactive setup, with each
    answer the user types passed in as a parameter: the FlexEdge rewrite of
    `server.conf`, the Ewon rewrite of a client `.ovpn`, the cipher selection,
    the client-name loops and the order of the two subnet allocations. */
module SetupSteps {
  import opened Wrappers
  import opened Text
  import opened IPv4
  import opened SubnetManagement
  import opened ConfigCheck

  // ---------------------------------------------------------------------
  // modify_server_conf_for_flexedge
  // ---------------------------------------------------------------------

  const StatusLine: string := "status " + "/media/sdcard/openvpn-status.log" + "\n"
  const LogAppendLine: string := "log-append " + "/media/sdcard/openvpn.log" + "\n"
  const CcdLine: string := "client-config-dir " + "/media/sdcard/ccd" + "\n"
  const IppLine: string := "ifconfig-pool-persist " + "/media/sdcard/ipp.txt" + "\n"

  /** A line whose directive the FlexEdge rewrite replaces. */
  predicate IsFlexEdgeDirective(line: string)
  {
    StartsWith(line, "status ") || StartsWith(line, "log-append ")
    || StartsWith(line, "client-config-dir ") || StartsWith(line, "ifconfig-pool-persist ")
  }

  /** What the loop writes for one line of `server.conf`. */
  function FlexEdgeLine(line: string): string
  {
    if StartsWith(line, "status ") then StatusLine
    else if StartsWith(line, "log-append ") then LogAppendLine
    else if StartsWith(line, "client-config-dir ") then CcdLine
    else if StartsWith(line, "ifconfig-pool-persist ") then IppLine
    else line
  }

  /** The four lines the rewrite writes are themselves rewritten to
      themselves. */
  lemma FixedLinesAreFixed()
    ensures FlexEdgeLine(StatusLine) == StatusLine
    ensures FlexEdgeLine(LogAppendLine) == LogAppendLine
    ensures FlexEdgeLine(CcdLine) == CcdLine
    ensures FlexEdgeLine(IppLine) == IppLine
  {
    assert StatusLine[..7] == "status ";
    assert LogAppendLine[..11] == "log-append ";
    assert LogAppendLine[0] == 'l';
    assert CcdLine[..18] == "client-config-dir ";
    assert CcdLine[0] == 'c';
    assert IppLine[..22] == "ifconfig-pool-persist ";
    assert IppLine[0] == 'i';
  }

  /** Each directive line becomes its fixed `/media/sdcard` line, every
      other line is kept, and rewriting twice is rewriting once. */
  lemma FlexEdgeLineMeaning(line: string)
    ensures !IsFlexEdgeDirective(line) ==> FlexEdgeLine(line) == line
    ensures IsFlexEdgeDirective(line) ==>
      FlexEdgeLine(line) in {StatusLine, LogAppendLine, CcdLine, IppLine}
    ensures StartsWith(line, "status ") ==> FlexEdgeLine(line) == StatusLine
    ensures StartsWith(line, "log-append ") ==> FlexEdgeLine(line) == LogAppendLine
    ensures StartsWith(line, "client-config-dir ") ==> FlexEdgeLine(line) == CcdLine
    ensures StartsWith(line, "ifconfig-pool-persist ") ==> FlexEdgeLine(line) == IppLine
    ensures FlexEdgeLine(FlexEdgeLine(line)) == FlexEdgeLine(line)
  {
    FixedLinesAreFixed();
  }

  /** The lines the loop writes back. */
  function FlexEdgeLines(lines: seq<string>): seq<string>
  {
    if lines == [] then [] else FlexEdgeLines(lines[..|lines| - 1]) + [FlexEdgeLine(lines[|lines| - 1])]
  }

  /** The rewrite keeps the number of lines and works line by line. */
  lemma {:induction false} FlexEdgeLinesMeaning(lines: seq<string>)
    ensures |FlexEdgeLines(lines)| == |lines|
    ensures forall i :: 0 <= i < |lines| ==> FlexEdgeLines(lines)[i] == FlexEdgeLine(lines[i])
  {
    if lines != [] {
      var front := lines[..|lines| - 1];
      FlexEdgeLinesMeaning(front);
      assert FlexEdgeLines(lines) == FlexEdgeLines(front) + [FlexEdgeLine(lines[|lines| - 1])];
      forall i | 0 <= i < |front|
        ensures lines[i] == front[i]
      {
      }
    }
  }

  /** Rewriting an already rewritten file changes nothing. */
  lemma FlexEdgeIdempotent(lines: seq<string>)
    ensures FlexEdgeLines(FlexEdgeLines(lines)) == FlexEdgeLines(lines)
  {
    var once := FlexEdgeLines(lines);
    FlexEdgeLinesMeaning(lines);
    FlexEdgeLinesMeaning(once);
    forall i | 0 <= i < |once|
      ensures FlexEdgeLines(once)[i] == once[i]
    {
      FlexEdgeLineMeaning(lines[i]);
    }
  }

  /** The loop of `modify_server_conf_for_flexedge` over the lines read. */
  method ModifyServerConfForFlexEdge(lines: seq<string>) returns (updated: seq<string>)
    ensures updated == FlexEdgeLines(lines)
  {
    updated := [];
    var i := 0;
    while i < |lines|
      invariant 0 <= i <= |lines|
      invariant updated == FlexEdgeLines(lines[..i])
    {
      var line := lines[i];
      assert lines[..i + 1][..i] == lines[..i];
      if StartsWith(line, "status ") {
        updated := updated + [StatusLine];
      } else if StartsWith(line, "log-append ") {
        updated := updated + [LogAppendLine];
      } else if StartsWith(line, "client-config-dir ") {
        updated := updated + [CcdLine];
      } else if StartsWith(line, "ifconfig-pool-persist ") {
        updated := updated + [IppLine];
      } else {
        updated := updated + [line];
      }
      i := i + 1;
    }
    assert lines[..|lines|] == lines;
  }

  // ---------------------------------------------------------------------
  // package_client_ewon: the <tls-auth> block
  // ---------------------------------------------------------------------

  const TlsAuthTag: string := "tls-auth"
  const TlsAuthDirective: string := "tls-auth /usr/ta.key\n"

  /** The lines the loop of `package_client_ewon` writes, reading with
      `inside_tls_auth` initially `inside`: tag lines never, other lines
      only outside a block. */
  function Kept(lines: seq<string>, tag: string, inside: bool): seq<string>
  {
    if lines == [] then []
    else
      match KindOf(lines[0], tag)
      case StartLine => Kept(lines[1..], tag, true)
      case EndLine => Kept(lines[1..], tag, false)
      case PlainLine => (if inside then [] else [lines[0]]) + Kept(lines[1..], tag, inside)
  }

  /** The tag lines of `lines`, in order. */
  function TagLines(lines: seq<string>, tag: string): seq<string>
  {
    if lines == [] then []
    else (if IsTagLine(lines[0], tag) then [lines[0]] else []) + TagLines(lines[1..], tag)
  }

  /** The loop of `package_client_ewon` over the lines of the `.ovpn`, then
      the new directive. */
  method PackageClientEwon(lines: seq<string>) returns (written: seq<string>)
    ensures written == Kept(lines, TlsAuthTag, false) + [TlsAuthDirective]
    ensures |written| >= 1 && written[|written| - 1] == TlsAuthDirective
  {
    assert StartTag(TlsAuthTag) == "<tls-auth>" && EndTag(TlsAuthTag) == "</tls-auth>";
    written := [];
    var insideTlsAuth := false;
    var i := 0;
    while i < |lines|
      invariant 0 <= i <= |lines|
      invariant written + Kept(lines[i..], TlsAuthTag, insideTlsAuth) == Kept(lines, TlsAuthTag, false)
    {
      var line := lines[i];
      KeptStep(lines, i, TlsAuthTag, insideTlsAuth);
      ghost var next := lines[i + 1..];
      var stripped := Strip(line);
      if stripped == "<tls-auth>" {
        insideTlsAuth := true;
      } else if stripped == "</tls-auth>" {
        insideTlsAuth := false;
        i := i + 1;
        continue;
      }
      if !insideTlsAuth {
        AppendAssoc(written, [line], Kept(next, TlsAuthTag, false));
        written := written + [line];
      } else {
        assert [] + Kept(next, TlsAuthTag, true) == Kept(next, TlsAuthTag, true);
      }
      i := i + 1;
    }
    assert lines[|lines|..] == [];
    assert written + [] == written;
    written := written + [TlsAuthDirective];
  }

  /** One step of the loop of `package_client_ewon`. */
  lemma KeptStep(lines: seq<string>, i: nat, tag: string, inside: bool)
    requires i < |lines|
    ensures Kept(lines[i..], tag, inside) ==
      if Strip(lines[i]) == StartTag(tag) then Kept(lines[i + 1..], tag, true)
      else if Strip(lines[i]) == EndTag(tag) then Kept(lines[i + 1..], tag, false)
      else (if inside then [] else [lines[i]]) + Kept(lines[i + 1..], tag, inside)
  {
    assert lines[i..][0] == lines[i] && lines[i..][1..] == lines[i + 1..];
  }

  /** Reading two pieces one after the other: what the second piece keeps
      depends only on the state the first leaves. */
  lemma {:induction false} KeptAppend(a: seq<string>, b: seq<string>, tag: string, inside: bool)
    ensures Kept(a + b, tag, inside) == Kept(a, tag, inside) + Kept(b, tag, InsideAfter(a, tag, inside))
  {
    if a == [] {
      assert a + b == b;
    } else {
      assert (a + b)[0] == a[0];
      assert (a + b)[1..] == a[1..] + b;
      match KindOf(a[0], tag)
      case StartLine => KeptAppend(a[1..], b, tag, true);
      case EndLine => KeptAppend(a[1..], b, tag, false);
      case PlainLine =>
        KeptAppend(a[1..], b, tag, inside);
        AppendAssoc(if inside then [] else [a[0]], Kept(a[1..], tag, inside),
                    Kept(b, tag, InsideAfter(a, tag, inside)));
    }
  }

  /** Lines without tags are kept outside a block and dropped inside one. */
  lemma {:induction false} KeptPlain(body: seq<string>, tag: string, inside: bool)
    requires forall i :: 0 <= i < |body| ==> !IsTagLine(body[i], tag)
    ensures Kept(body, tag, inside) == if inside then [] else body
  {
    if body != [] {
      assert !IsTagLine(body[0], tag);
      KeptPlain(body[1..], tag, inside);
      if !inside {
        assert body == [body[0]] + body[1..];
      }
    }
  }

  /** A whole block, both tags included, is dropped, and the reader is
      outside afterwards. */
  lemma KeptDropsBlock(body: seq<string>, tag: string, inside: bool, start: string, end: string)
    requires KindOf(start, tag) == StartLine && KindOf(end, tag) == EndLine
    requires forall i :: 0 <= i < |body| ==> !IsTagLine(body[i], tag)
    ensures Kept([start] + body + [end], tag, inside) == []
  {
    var lines := [start] + body + [end];
    var tail := body + [end];
    assert lines[0] == start && lines[1..] == tail;
    KeptPlain(body, tag, true);
    CopiedPlain(body, tag, true);
    KeptAppend(body, [end], tag, true);
    assert [end][0] == end && [end][1..] == [];
    assert Kept([end], tag, true) == [];
  }

  /** The lines around a `<tls-auth>` block are kept in order, the block
      and its tags are dropped. */
  lemma BlockIsStripped(before: seq<string>, body: seq<string>, after: seq<string>,
                        tag: string, start: string, end: string)
    requires KindOf(start, tag) == StartLine && KindOf(end, tag) == EndLine
    requires forall i :: 0 <= i < |before| ==> !IsTagLine(before[i], tag)
    requires forall i :: 0 <= i < |body| ==> !IsTagLine(body[i], tag)
    requires forall i :: 0 <= i < |after| ==> !IsTagLine(after[i], tag)
    ensures Kept(before + ([start] + body + [end]) + after, tag, false) == before + after
  {
    var block := [start] + body + [end];
    KeptPlain(before, tag, false);
    CopiedPlain(before, tag, false);
    KeptDropsBlock(body, tag, false, start, end);
    Block(body, tag, false, start, end);
    KeptAppend(before, block, tag, false);
    CopiedAppend(before, block, tag, false);
    KeptAppend(before + block, after, tag, false);
    KeptPlain(after, tag, false);
    assert before + [] == before;
  }

  /** The Ewon rewrite and the section extractor split the lines of a file
      between them: each line is a tag line, or is written by the Ewon
      rewrite, or is extracted as part of a section, and exactly one. */
  lemma {:induction false} KeptAndCopiedPartition(lines: seq<string>, tag: string, inside: bool)
    ensures multiset(Kept(lines, tag, inside)) + multiset(Copied(lines, tag, inside)) + multiset(TagLines(lines, tag))
         == multiset(lines)
  {
    if lines != [] {
      var x := lines[0];
      var rest := lines[1..];
      assert lines == [x] + rest;
      match KindOf(x, tag)
      case StartLine => KeptAndCopiedPartition(rest, tag, true);
      case EndLine => KeptAndCopiedPartition(rest, tag, false);
      case PlainLine => KeptAndCopiedPartition(rest, tag, inside);
    }
  }

  // ---------------------------------------------------------------------
  // prompt_for_clients: the cipher selection
  // ---------------------------------------------------------------------

  /** `valid_ciphers` as the loop starts, weakest first; `full_ordering`
      is the same list. */
  const CipherOrdering: seq<string> := [
    "DES-EDE3-CBC", "BF-CBC", "SEED-CBC", "CAMELLIA-128-CBC", "AES-128-CBC", "CAMELLIA-192-CBC",
    "AES-192-CBC", "CAMELLIA-256-CBC", "AES-256-CBC", "AES-128-GCM", "AES-192-GCM", "AES-256-GCM",
    "CHACHA20-POLY1305"]

  lemma CipherOrderingIsDistinct()
    ensures |CipherOrdering| == 13 && NoDuplicates(CipherOrdering)
  {
  }

  /** `list.remove(x)`: the list without the first occurrence of `x`. */
  function RemoveFirst(s: seq<string>, x: string): (r: seq<string>)
    requires x in s
    ensures |r| == |s| - 1
    ensures multiset(r) + multiset{x} == multiset(s)
  {
    if s[0] == x then
      assert s == [x] + s[1..];
      s[1..]
    else
      assert s == [s[0]] + s[1..];
      [s[0]] + RemoveFirst(s[1..], x)
  }

  /** In a list without repetitions, removing the element at `k` leaves the
      elements before and after it. */
  lemma {:induction false} RemoveFirstAt(s: seq<string>, k: nat)
    requires k < |s| && NoDuplicates(s)
    ensures RemoveFirst(s, s[k]) == s[..k] + s[k + 1..]
  {
    if k > 0 {
      assert s[0] != s[k];
      assert s[1..][k - 1] == s[k];
      RemoveFirstAt(s[1..], k - 1);
      assert s[1..][..k - 1] == s[1..k];
      assert s[1..][k..] == s[k + 1..];
      assert [s[0]] + s[1..k] == s[..k];
      AppendAssoc([s[0]], s[1..k], s[k + 1..]);
    }
  }

  /** What the loop makes of one answer. */
  datatype Answer = Finish | Number(n: int) | NotANumber

  /** `input(...).strip().lower()`, then the test for `"0"` or `"done"`,
      then `int(selection)`. */
  function Interpret(answer: string): Answer
  {
    var selection := Lower(Strip(answer));
    if selection == "0" || selection == "done" then Finish
    else
      match ParseInt(selection)
      case Some(n) => Number(n)
      case None => NotANumber
  }

  /** The two lists of the loop. */
  datatype Selection = Selection(valid: seq<string>, selected: seq<string>)

  /** One pass of the loop that does not end it: a number in range moves
      that cipher to the end of the selected list; anything else changes
      nothing. */
  function Choose(s: Selection, answer: Answer): Selection
  {
    match answer
    case Number(n) =>
      if 1 <= n <= |s.valid| then
        var cipher := s.valid[n - 1];
        Selection(RemoveFirst(s.valid, cipher), s.selected + [cipher])
      else s
    case _ => s
  }

  /** How the loop ends: "0" or "done" with a cipher selected, no cipher
      left, or no more answers. */
  datatype Ending = Chosen | NoneLeft | NoMoreAnswers

  /** The loop of `prompt_for_clients` over the answers given. */
  function Select(s: Selection, answers: seq<string>): (Selection, Ending)
    decreases |answers|
  {
    if s.valid == [] then (s, NoneLeft)
    else if answers == [] then (s, NoMoreAnswers)
    else if Interpret(answers[0]) == Finish && s.selected != [] then (s, Chosen)
    else Select(Choose(s, Interpret(answers[0])), answers[1..])
  }

  /** The two lists hold the ciphers of `all` between them, each once. */
  predicate Partitioned(s: Selection, all: seq<string>)
  {
    multiset(s.valid) + multiset(s.selected) == multiset(all)
    && NoDuplicates(s.valid) && NoDuplicates(s.selected)
    && forall c :: c in s.valid ==> c !in s.selected
  }

  /** Removing one element of a list without repetitions. */
  lemma RemoveAtKeepsDistinct(s: seq<string>, k: nat)
    requires k < |s| && NoDuplicates(s)
    ensures NoDuplicates(s[..k] + s[k + 1..])
    ensures forall c :: c in s[..k] + s[k + 1..] ==> c in s && c != s[k]
  {
    var r := s[..k] + s[k + 1..];
    forall i, j | 0 <= i < j < |r|
      ensures r[i] != r[j]
    {
      var i' := if i < k then i else i + 1;
      var j' := if j < k then j else j + 1;
      assert r[i] == s[i'] && r[j] == s[j'];
    }
    forall c | c in r
      ensures c in s && c != s[k]
    {
      var i :| 0 <= i < |r| && r[i] == c;
      var i' := if i < k then i else i + 1;
      assert r[i] == s[i'];
    }
  }

  /** Appending an element not yet present keeps a list without
      repetitions. */
  lemma AppendKeepsDistinct(s: seq<string>, c: string)
    requires NoDuplicates(s) && c !in s
    ensures NoDuplicates(s + [c])
  {
    var r := s + [c];
    forall i, j | 0 <= i < j < |r|
      ensures r[i] != r[j]
    {
      if j == |s| {
        assert r[i] == s[i];
      }
    }
  }

  /** Moving `valid[k]` to the end of `selected` keeps the partition. */
  lemma MoveKeepsPartition(s: Selection, all: seq<string>, k: nat)
    requires Partitioned(s, all) && k < |s.valid|
    ensures Partitioned(Selection(s.valid[..k] + s.valid[k + 1..], s.selected + [s.valid[k]]), all)
  {
    var c := s.valid[k];
    var valid' := s.valid[..k] + s.valid[k + 1..];
    RemoveAtKeepsDistinct(s.valid, k);
    assert s.valid == s.valid[..k] + [c] + s.valid[k + 1..];
    assert multiset(s.valid) == multiset(valid') + multiset{c};
    assert c !in s.selected;
    AppendKeepsDistinct(s.selected, c);
    forall x | x in valid'
      ensures x !in s.selected + [c]
    {
      assert x in s.valid && x != c;
    }
  }

  /** A number in range moves `valid[n-1]` to the end of `selected`; any
      other answer leaves both lists unchanged; either way the ciphers
      stay partitioned between the two lists. */
  lemma ChooseMeaning(s: Selection, all: seq<string>, answer: Answer)
    requires Partitioned(s, all)
    ensures Partitioned(Choose(s, answer), all)
    ensures answer.Number? && 1 <= answer.n <= |s.valid| ==>
      Choose(s, answer) == Selection(s.valid[..answer.n - 1] + s.valid[answer.n..], s.selected + [s.valid[answer.n - 1]])
    ensures !(answer.Number? && 1 <= answer.n <= |s.valid|) ==> Choose(s, answer) == s
  {
    if answer.Number? && 1 <= answer.n <= |s.valid| {
      var k := answer.n - 1;
      RemoveFirstAt(s.valid, k);
      MoveKeepsPartition(s, all, k);
    }
  }

  /** Over the whole loop: the ciphers stay partitioned, the selected list
      only grows at its end, finishing needs a selected cipher, and running
      out of ciphers means all of them were selected. */
  lemma {:induction false} SelectMeaning(s: Selection, all: seq<string>, answers: seq<string>)
    requires Partitioned(s, all)
    ensures Partitioned(Select(s, answers).0, all)
    ensures s.selected <= Select(s, answers).0.selected
    ensures Select(s, answers).1 == Chosen ==> Select(s, answers).0.selected != []
    ensures Select(s, answers).1 == NoneLeft ==>
      Select(s, answers).0.valid == [] && multiset(Select(s, answers).0.selected) == multiset(all)
    decreases |answers|
  {
    if s.valid != [] && answers != [] && !(Interpret(answers[0]) == Finish && s.selected != []) {
      var a := Interpret(answers[0]);
      ChooseMeaning(s, all, a);
      SelectMeaning(Choose(s, a), all, answers[1..]);
    }
  }

  /** One pass of the loop. */
  lemma SelectStep(s: Selection, answers: seq<string>, i: nat)
    requires i < |answers| && s.valid != []
    ensures Select(s, answers[i..]) ==
      if Interpret(answers[i]) == Finish && s.selected != [] then (s, Chosen)
      else Select(Choose(s, Interpret(answers[i])), answers[i + 1..])
  {
    assert answers[i..][0] == answers[i] && answers[i..][1..] == answers[i + 1..];
  }

  /** The selection loop of `prompt_for_clients`. */
  method SelectCiphers(answers: seq<string>) returns (validCiphers: seq<string>, selectedCiphers: seq<string>, ending: Ending)
    ensures (Selection(validCiphers, selectedCiphers), ending) == Select(Selection(CipherOrdering, []), answers)
  {
    validCiphers := CipherOrdering;
    selectedCiphers := [];
    var i := 0;
    while true
      invariant 0 <= i <= |answers|
      invariant Select(Selection(validCiphers, selectedCiphers), answers[i..]) == Select(Selection(CipherOrdering, []), answers)
      decreases |answers| - i
    {
      if validCiphers == [] {
        return validCiphers, selectedCiphers, NoneLeft;
      }
      if i == |answers| {
        return validCiphers, selectedCiphers, NoMoreAnswers;
      }
      SelectStep(Selection(validCiphers, selectedCiphers), answers, i);
      var answer := Interpret(answers[i]);
      if answer == Finish {
        if selectedCiphers != [] {
          return validCiphers, selectedCiphers, Chosen;
        }
      } else if answer.Number? {
        var n := answer.n;
        if 1 <= n <= |validCiphers| {
          var cipherSelected := validCiphers[n - 1];
          selectedCiphers := selectedCiphers + [cipherSelected];
          validCiphers := RemoveFirst(validCiphers, cipherSelected);
        }
      }
      i := i + 1;
    }
  }

  /** The selection loop always ends with the ciphers split between the
      two lists; it finishes on request only with a selection, and it runs
      out of ciphers only when all of them are selected. */
  lemma SelectionKeepsCiphers(all: seq<string>, answers: seq<string>)
    requires all != [] && NoDuplicates(all)
    ensures Partitioned(Select(Selection(all, []), answers).0, all)
    ensures Select(Selection(all, []), answers).1 != NoMoreAnswers ==>
      Select(Selection(all, []), answers).0.selected != []
    ensures Select(Selection(all, []), answers).1 == NoneLeft ==>
      multiset(Select(Selection(all, []), answers).0.selected) == multiset(all)
  {
    var s := Selection(all, []);
    assert multiset(s.valid) + multiset(s.selected) == multiset(all);
    SelectMeaning(s, all, answers);
    var r := Select(s, answers).0;
    if Select(s, answers).1 == NoneLeft {
      assert all[0] in multiset(r.selected);
    }
  }

  // ---------------------------------------------------------------------
  // prompt_for_clients: the weakest cipher
  // ---------------------------------------------------------------------

  /** `ordering.index(c)`. */
  function IndexOf(ordering: seq<string>, c: string): (k: nat)
    requires c in ordering
    ensures k < |ordering| && ordering[k] == c
    ensures forall j :: 0 <= j < k ==> ordering[j] != c
  {
    if ordering[0] == c then 0 else 1 + IndexOf(ordering[1..], c)
  }

  /** The position in `selected` of `min(selected, key=key)`, scanning
      from the front and replacing only on a strictly smaller key. */
  function WeakestAt(selected: seq<string>, key: string -> nat): (k: nat)
    requires selected != []
    ensures k < |selected|
  {
    if |selected| == 1 then 0
    else
      var k := WeakestAt(selected[..|selected| - 1], key);
      if key(selected[|selected| - 1]) < key(selected[k]) then |selected| - 1 else k
  }

  /** `min` returns the first element of least key: no element has a
      smaller key, and every element before it a larger one. */
  lemma {:induction false} WeakestAtMeaning(selected: seq<string>, key: string -> nat)
    requires selected != []
    ensures var k := WeakestAt(selected, key);
      forall j :: 0 <= j < |selected| ==> key(selected[k]) <= key(selected[j])
    ensures var k := WeakestAt(selected, key);
      forall j :: 0 <= j < k ==> key(selected[k]) < key(selected[j])
  {
    if |selected| > 1 {
      var last := |selected| - 1;
      var front := selected[..last];
      WeakestAtMeaning(front, key);
      var kf := WeakestAt(front, key);
      var k := WeakestAt(selected, key);
      assert front[kf] == selected[kf];
      forall j | 0 <= j < |selected|
        ensures key(selected[k]) <= key(selected[j])
      {
        if j < last {
          assert front[j] == selected[j];
        }
      }
      forall j | 0 <= j < k
        ensures key(selected[k]) < key(selected[j])
      {
        assert front[j] == selected[j];
      }
    }
  }

  /** `full_ordering.index`, for the ciphers of the ordering. */
  function CipherRank(c: string): nat
  {
    if c in CipherOrdering then IndexOf(CipherOrdering, c) else 0
  }

  /** `weakest_cipher`: `None` for an empty selection, otherwise a selected
      cipher no stronger than any other selected cipher, the first such in
      the selection. */
  function WeakestCipher(selected: seq<string>): (w: Option<string>)
    requires forall i :: 0 <= i < |selected| ==> selected[i] in CipherOrdering
    ensures w.None? <==> selected == []
    ensures w.Some? ==> w.value in selected
    ensures w.Some? ==> forall c :: c in selected ==> IndexOf(CipherOrdering, w.value) <= IndexOf(CipherOrdering, c)
  {
    if selected == [] then None
    else
      WeakestAtMeaning(selected, CipherRank);
      Some(selected[WeakestAt(selected, CipherRank)])
  }

  /** Every selected cipher is one of the thirteen, so the weakest one is
      defined after every selection loop that finishes. */
  lemma SelectedAreKnown(s: Selection, all: seq<string>)
    requires Partitioned(s, all)
    ensures forall i :: 0 <= i < |s.selected| ==> s.selected[i] in all
  {
    forall i | 0 <= i < |s.selected|
      ensures s.selected[i] in all
    {
      assert s.selected[i] in multiset(s.selected);
      assert multiset(all)[s.selected[i]] > 0;
    }
  }

  // ---------------------------------------------------------------------
  // The client-name loops
  // ---------------------------------------------------------------------

  /** The name an answer offers: `prompt_for_clients` strips it and refuses
      an empty name; `prompt_for_clients_existing_server` takes it as typed. */
  function Candidate(answer: string, strip: bool): Option<string>
  {
    if !strip then Some(answer)
    else
      var name := Strip(answer);
      if name == [] then None else Some(name)
  }

  /** The candidate of each answer in turn. */
  function Candidates(answers: seq<string>, strip: bool): (cs: seq<Option<string>>)
    ensures |cs| == |answers|
  {
    if answers == [] then [] else [Candidate(answers[0], strip)] + Candidates(answers[1..], strip)
  }

  /** The candidate at a position is that of the answer there. */
  lemma {:induction false} CandidateAt(answers: seq<string>, strip: bool, k: nat)
    requires k < |answers|
    ensures Candidates(answers, strip)[k] == Candidate(answers[k], strip)
  {
    if k > 0 {
      CandidateAt(answers[1..], strip, k - 1);
    }
  }

  /** Stripping a stripped text changes nothing. */
  lemma StripIdempotent(s: string)
    ensures Strip(Strip(s)) == Strip(s)
  {
    StripKeepsCore(Strip(s), []);
    assert Strip(s) + [] == Strip(s);
  }

  /** A stripping loop offers only non-empty, stripped names; the other
      loop offers every answer as typed. */
  lemma CandidateMeaning(answer: string)
    ensures Candidate(answer, true).Some? ==>
      Candidate(answer, true).value != [] && Strip(Candidate(answer, true).value) == Candidate(answer, true).value
    ensures Candidate(answer, true).None? <==> Strip(answer) == []
    ensures Candidate(answer, false) == Some(answer)
  {
    StripIdempotent(answer);
  }

  /** The names the loops accept from the candidates, while `count` more
      are wanted: a missing candidate, or one already taken, is passed over
      and the next answer is asked for. */
  function Admitted(taken: seq<string>, candidates: seq<Option<string>>, count: nat): seq<string>
    decreases |candidates|
  {
    if count == 0 || candidates == [] then []
    else
      match candidates[0]
      case None => Admitted(taken, candidates[1..], count)
      case Some(name) =>
        if name in taken then Admitted(taken, candidates[1..], count)
        else [name] + Admitted(taken + [name], candidates[1..], count - 1)
  }

  /** At most `count` names are accepted, each offered by some answer, none
      of them taken before and none twice, so a list of names without
      repetitions keeps none. */
  lemma {:induction false} AdmittedMeaning(taken: seq<string>, candidates: seq<Option<string>>, count: nat)
    ensures |Admitted(taken, candidates, count)| <= count
    ensures forall i :: 0 <= i < |Admitted(taken, candidates, count)| ==>
      Admitted(taken, candidates, count)[i] !in taken && Some(Admitted(taken, candidates, count)[i]) in candidates
    ensures NoDuplicates(Admitted(taken, candidates, count))
    ensures NoDuplicates(taken) ==> NoDuplicates(taken + Admitted(taken, candidates, count))
    decreases |candidates|
  {
    if count > 0 && candidates != [] {
      var rest := candidates[1..];
      match candidates[0]
      case None => AdmittedMeaning(taken, rest, count);
      case Some(name) =>
        if name in taken {
          AdmittedMeaning(taken, rest, count);
        } else {
          var taken' := taken + [name];
          var more := Admitted(taken', rest, count - 1);
          AdmittedMeaning(taken', rest, count - 1);
          var r := [name] + more;
          assert Admitted(taken, candidates, count) == r;
          forall i | 0 <= i < |more|
            ensures more[i] != name && more[i] !in taken && Some(more[i]) in candidates
          {
            assert more[i] !in taken';
            assert Some(more[i]) in rest;
          }
          forall i, j | 0 <= i < j < |r|
            ensures r[i] != r[j]
          {
            if i > 0 {
              assert r[i] == more[i - 1] && r[j] == more[j - 1];
            }
          }
          if NoDuplicates(taken) {
            forall i, j | 0 <= i < j < |taken'|
              ensures taken'[i] != taken'[j]
            {
              if j == |taken| {
                assert taken'[i] in taken;
              }
            }
            AppendAssoc(taken, [name], more);
          }
        }
    }
    if candidates != [] {
      forall x | x in candidates[1..]
        ensures x in candidates
      {
      }
    }
  }

  /** Every name `prompt_for_clients` accepts is non-empty and already
      stripped. */
  lemma StrippedNamesAdmitted(taken: seq<string>, answers: seq<string>, count: nat)
    ensures forall i :: 0 <= i < |Admitted(taken, Candidates(answers, true), count)| ==>
      (var name := Admitted(taken, Candidates(answers, true), count)[i];
       name != [] && Strip(name) == name)
  {
    var cs := Candidates(answers, true);
    var r := Admitted(taken, cs, count);
    AdmittedMeaning(taken, cs, count);
    forall i | 0 <= i < |r|
      ensures r[i] != [] && Strip(r[i]) == r[i]
    {
      var k :| 0 <= k < |cs| && cs[k] == Some(r[i]);
      CandidateAt(answers, true, k);
      CandidateMeaning(answers[k]);
    }
  }

  /** One answer of a client-name loop. */
  lemma AdmittedStep(taken: seq<string>, cs: seq<Option<string>>, j: nat, count: nat)
    requires j < |cs| && count > 0
    ensures cs[j].None? || cs[j].value in taken ==>
      Admitted(taken, cs[j..], count) == Admitted(taken, cs[j + 1..], count)
    ensures cs[j].Some? && cs[j].value !in taken ==>
      Admitted(taken, cs[j..], count) == [cs[j].value] + Admitted(taken + [cs[j].value], cs[j + 1..], count - 1)
  {
    assert cs[j..][0] == cs[j] && cs[j..][1..] == cs[j + 1..];
  }

  /** The inner `while True` loop of `prompt_for_clients`: read answers
      from `start` until one, stripped, is non-empty and not yet in
      `clientNames`; `next` is the first answer not read. */
  method ReadClientName(clientNames: seq<string>, answers: seq<string>, start: nat, ghost count: nat)
    returns (clientName: Option<string>, next: nat)
    requires start <= |answers| && count > 0
    ensures start <= next <= |answers|
    ensures clientName.None? ==> next == |answers|
    ensures clientName.Some? ==>
      Admitted(clientNames, Candidates(answers, true)[start..], count)
      == [clientName.value] + Admitted(clientNames + [clientName.value], Candidates(answers, true)[next..], count - 1)
    ensures clientName.None? ==> Admitted(clientNames, Candidates(answers, true)[start..], count) == []
  {
    ghost var cs := Candidates(answers, true);
    next := start;
    while next < |answers|
      invariant start <= next <= |answers|
      invariant Admitted(clientNames, cs[start..], count) == Admitted(clientNames, cs[next..], count)
    {
      var name := Strip(answers[next]);
      CandidateAt(answers, true, next);
      AdmittedStep(clientNames, cs, next, count);
      next := next + 1;
      if name == [] {
        continue;
      }
      if name in clientNames {
        continue;
      }
      return Some(name), next;
    }
    assert cs[next..] == [];
    return None, next;
  }

  /** The name loop of `prompt_for_clients`, for `num_clients` names:
      `client_names` gains exactly the names returned as new. */
  method PromptForClientNames(clientNames: seq<string>, numClients: nat, answers: seq<string>)
    returns (allNames: seq<string>, newClientNames: seq<string>)
    ensures newClientNames == Admitted(clientNames, Candidates(answers, true), numClients)
    ensures allNames == clientNames + newClientNames
  {
    ghost var cs := Candidates(answers, true);
    allNames := clientNames;
    newClientNames := [];
    var j := 0;
    var i := 0;
    assert cs[j..] == cs;
    while i < numClients
      invariant 0 <= i <= numClients && 0 <= j <= |answers|
      invariant allNames == clientNames + newClientNames
      invariant newClientNames + Admitted(allNames, cs[j..], numClients - i) == Admitted(clientNames, cs, numClients)
    {
      var clientName, next := ReadClientName(allNames, answers, j, numClients - i);
      if clientName.None? {
        assert newClientNames + [] == newClientNames;
        return;
      }
      ghost var rest := Admitted(allNames + [clientName.value], cs[next..], numClients - i - 1);
      assert Admitted(allNames, cs[j..], numClients - i) == [clientName.value] + rest;
      AppendAssoc(newClientNames, [clientName.value], rest);
      allNames := allNames + [clientName.value];
      newClientNames := newClientNames + [clientName.value];
      j := next;
      i := i + 1;
    }
    assert newClientNames + [] == newClientNames;
  }

  /** The name loop of `prompt_for_clients_existing_server`: names are
      taken as typed, `range` of a negative count is empty, the saved list
      is the existing names followed by the new ones, and only the new ones
      are returned. */
  method PromptForClientNamesExistingServer(existingClientNames: seq<string>, numClients: int, answers: seq<string>)
    returns (allClientNames: seq<string>, newClientNames: seq<string>)
    ensures newClientNames == Admitted(existingClientNames, Candidates(answers, false), if numClients > 0 then numClients else 0)
    ensures allClientNames == existingClientNames + newClientNames
  {
    ghost var cs := Candidates(answers, false);
    var total: nat := if numClients > 0 then numClients else 0;
    newClientNames := [];
    assert existingClientNames + newClientNames == existingClientNames;
    var j := 0;
    var i := 0;
    while i < total
      invariant 0 <= i <= total && 0 <= j <= |answers|
      invariant newClientNames + Admitted(existingClientNames + newClientNames, cs[j..], total - i)
             == Admitted(existingClientNames, cs, total)
    {
      var accepted := false;
      while !accepted && j < |answers|
        invariant 0 <= j <= |answers| && i < total
        invariant !accepted ==>
          newClientNames + Admitted(existingClientNames + newClientNames, cs[j..], total - i)
          == Admitted(existingClientNames, cs, total)
        invariant accepted ==>
          newClientNames + Admitted(existingClientNames + newClientNames, cs[j..], total - i - 1)
          == Admitted(existingClientNames, cs, total)
        decreases |answers| - j, !accepted
      {
        ghost var taken := existingClientNames + newClientNames;
        var clientName := answers[j];
        CandidateAt(answers, false, j);
        AdmittedStep(taken, cs, j, total - i);
        ghost var next := cs[j + 1..];
        j := j + 1;
        if !(clientName in existingClientNames || clientName in newClientNames) {
          AppendAssoc(newClientNames, [clientName], Admitted(taken + [clientName], next, total - i - 1));
          AppendAssoc(existingClientNames, newClientNames, [clientName]);
          newClientNames := newClientNames + [clientName];
          accepted := true;
        }
      }
      if !accepted {
        assert cs[j..] == [];
        assert newClientNames + [] == newClientNames;
        allClientNames := existingClientNames + newClientNames;
        return;
      }
      i := i + 1;
    }
    assert newClientNames + [] == newClientNames;
    allClientNames := existingClientNames + newClientNames;
  }

  // ---------------------------------------------------------------------
  // initialize_server: the tunnel subnet, then the LAN subnet
  // ---------------------------------------------------------------------

  /** The subnet the prompt loop returns: that of the first answer
      `validate_subnet` accepts, or none when every answer is refused. */
  function AcceptedSubnet(answers: seq<string>, existing: seq<string>): Option<Subnet>
  {
    if answers == [] then None
    else
      match ValidateSubnet(answers[0], existing)
      case Ok(subnet) => Some(subnet)
      case Err(_) => AcceptedSubnet(answers[1..], existing)
  }

  /** One pass of the prompt loop. */
  lemma AcceptedStep(answers: seq<string>, existing: seq<string>, i: nat)
    requires i < |answers|
    ensures AcceptedSubnet(answers[i..], existing) ==
      match ValidateSubnet(answers[i], existing)
      case Ok(subnet) => Some(subnet)
      case Err(_) => AcceptedSubnet(answers[i + 1..], existing)
  {
    assert answers[i..][0] == answers[i] && answers[i..][1..] == answers[i + 1..];
  }

  /** An accepted subnet is what one of the answers parses to and is
      compatible with every subnet it was checked against; when every
      subnet of the list is refused, so is everything. */
  lemma {:induction false} AcceptedSubnetMeaning(answers: seq<string>, existing: seq<string>)
    ensures AcceptedSubnet(answers, existing).Some? ==>
      exists k :: 0 <= k < |answers| && ParseSubnetInput(answers[k]) == Ok(AcceptedSubnet(answers, existing).value)
    ensures AcceptedSubnet(answers, existing).Some? ==>
      forall i :: 0 <= i < |existing| ==> Compatible(AcceptedSubnet(answers, existing).value, existing[i])
  {
    if answers != [] {
      var r := ValidateSubnet(answers[0], existing);
      if r.Err? {
        AcceptedSubnetMeaning(answers[1..], existing);
        if AcceptedSubnet(answers, existing).Some? {
          var k :| 0 <= k < |answers[1..]| && ParseSubnetInput(answers[1..][k]) == Ok(AcceptedSubnet(answers, existing).value);
          assert answers[1..][k] == answers[k + 1];
        }
      }
    }
  }

  /** The LAN subnet, checked against a list that holds the tunnel subnet,
      never overlaps it. */
  lemma SecondAllocationAvoidsFirst(existing: seq<string>, tunnel: Subnet, lanAnswers: seq<string>)
    requires AcceptedSubnet(lanAnswers, existing + [NetworkText(tunnel)]).Some?
    ensures !Overlaps(tunnel, AcceptedSubnet(lanAnswers, existing + [NetworkText(tunnel)]).value)
    ensures !Overlaps(AcceptedSubnet(lanAnswers, existing + [NetworkText(tunnel)]).value, tunnel)
  {
    var list := existing + [NetworkText(tunnel)];
    var lan := AcceptedSubnet(lanAnswers, list).value;
    AcceptedSubnetMeaning(lanAnswers, list);
    assert Compatible(lan, list[|existing|]);
    NetworkRoundTrip(tunnel, false);
    OverlapsMeaning(lan, tunnel);
  }

  /** `while True: ... validate_subnet(input(...), existing_subnets)`. */
  method PromptSubnet(answers: seq<string>, existing: seq<string>) returns (subnet: Option<Subnet>)
    ensures subnet == AcceptedSubnet(answers, existing)
  {
    var i := 0;
    while i < |answers|
      invariant 0 <= i <= |answers|
      invariant AcceptedSubnet(answers[i..], existing) == AcceptedSubnet(answers, existing)
    {
      AcceptedStep(answers, existing, i);
      var result := ValidateSubnet(answers[i], existing);
      if result.Ok? {
        return Some(result.value);
      }
      i := i + 1;
    }
    assert answers[i..] == [];
    return None;
  }

  /** An accepted subnet is compatible with every record whose Subnet
      column it was checked against, and with every extra entry. */
  lemma AcceptedAvoidsRows(answers: seq<string>, rows: seq<Row>, extra: seq<string>, c: Subnet)
    requires AcceptedSubnet(answers, SubnetColumn(rows) + extra) == Some(c)
    ensures forall i :: 0 <= i < |rows| ==> Compatible(c, rows[i].subnet)
    ensures forall i :: 0 <= i < |extra| ==> Compatible(c, extra[i])
  {
    var list := SubnetColumn(rows) + extra;
    AcceptedSubnetMeaning(answers, list);
    ColumnParts(s => Compatible(c, s), rows, extra);
  }

  /** What holds of every entry of the Subnet column followed by `extra`
      holds of every record's subnet and of every extra entry. */
  lemma ColumnParts(p: string -> bool, rows: seq<Row>, extra: seq<string>)
    requires forall i :: 0 <= i < |SubnetColumn(rows) + extra| ==> p((SubnetColumn(rows) + extra)[i])
    ensures forall i :: 0 <= i < |rows| ==> p(rows[i].subnet)
    ensures forall i :: 0 <= i < |extra| ==> p(extra[i])
  {
    var list := SubnetColumn(rows) + extra;
    forall i | 0 <= i < |rows|
      ensures p(rows[i].subnet)
    {
      assert list[i] == rows[i].subnet;
    }
    forall i | 0 <= i < |extra|
      ensures p(extra[i])
    {
      assert list[|rows| + i] == extra[i];
    }
  }

  /** The two allocations of `initialize_server` keep a registry free of
      overlaps: the tunnel subnet avoids every record, the LAN subnet every
      record and the tunnel subnet. */
  lemma InitializeKeepsDisjoint(rows: seq<Row>, tunnelAnswers: seq<string>, lanAnswers: seq<string>)
    requires Disjoint(rows)
    requires AcceptedSubnet(tunnelAnswers, SubnetColumn(rows)).Some?
    ensures
      var t := AcceptedSubnet(tunnelAnswers, SubnetColumn(rows)).value;
      var lan := AcceptedSubnet(lanAnswers, SubnetColumn(rows) + [NetworkText(t)]);
      Disjoint(rows + [Row(TunnelName, NetworkText(t))]
               + (if lan.Some? then [Row(LanName, NetworkText(lan.value))] else []))
  {
    var t := AcceptedSubnet(tunnelAnswers, SubnetColumn(rows)).value;
    assert SubnetColumn(rows) + [] == SubnetColumn(rows);
    AcceptedAvoidsRows(tunnelAnswers, rows, [], t);
    AllocationKeepsDisjoint(rows, TunnelName, t);
    var rows1 := rows + [Row(TunnelName, NetworkText(t))];
    var lan := AcceptedSubnet(lanAnswers, SubnetColumn(rows) + [NetworkText(t)]);
    if lan.Some? {
      AcceptedAvoidsRows(lanAnswers, rows, [NetworkText(t)], lan.value);
      forall i | 0 <= i < |rows1|
        ensures Compatible(lan.value, rows1[i].subnet)
      {
        if i == |rows| {
          assert [NetworkText(t)][0] == rows1[i].subnet;
        } else {
          assert rows1[i] == rows[i];
        }
      }
      AllocationKeepsDisjoint(rows1, LanName, lan.value);
    } else {
      assert rows1 + [] == rows1;
    }
  }

  /** The subnet steps of `initialize_server`: the Subnet column of the
      registry is loaded, then the two subnets are asked for and saved. A
      registry whose records cannot be read by the key `Subnet` raises
      before anything is asked or saved. */
  method InitializeServerSubnets(registry: Registry, tunnelAnswers: seq<string>, lanAnswers: seq<string>)
    returns (loadError: Option<SubnetError>, tunnel: Option<Subnet>, lan: Option<Subnet>)
    requires registry.Valid()
    modifies registry
    ensures registry.Valid()
    ensures loadError.Some? <==> !old(registry.Readable("Subnet"))
    ensures loadError.Some? ==> loadError.value == MissingKey("Subnet") && tunnel.None?
    ensures loadError.None? ==> tunnel == AcceptedSubnet(tunnelAnswers, old(registry.SubnetList()))
    ensures tunnel.None? ==> lan.None? && registry.fileExists == old(registry.fileExists) && registry.rows == old(registry.rows)
    ensures tunnel.Some? ==> lan == AcceptedSubnet(lanAnswers, old(registry.SubnetList()) + [NetworkText(tunnel.value)])
    ensures tunnel.Some? && lan.Some? ==> !Overlaps(tunnel.value, lan.value)
    ensures tunnel.Some? ==>
      registry.rows == (if old(registry.fileExists) then old(registry.rows) else [Header])
                       + [Row(TunnelName, NetworkText(tunnel.value))]
                       + (if lan.Some? then [Row(LanName, NetworkText(lan.value))] else [])
    ensures tunnel.Some? && old(registry.HasHeader()) ==>
      registry.HasHeader()
      && registry.Records() == old(registry.Records()) + [Row(TunnelName, NetworkText(tunnel.value))]
                               + (if lan.Some? then [Row(LanName, NetworkText(lan.value))] else [])
    ensures old(registry.HasHeader()) ==> loadError.None?
    ensures old(registry.HasHeader()) && old(Disjoint(registry.Records())) ==> registry.HasHeader() && Disjoint(registry.Records())
  {
    var loaded := registry.LoadExistingSubnets();
    if loaded.Err? {
      return Some(loaded.error), None, None;
    }
    loadError := None;
    tunnel, lan := AllocateServerSubnets(registry, loaded.value, tunnelAnswers, lanAnswers);
  }

  /** The prompts of `initialize_server` once `existing` holds the registry's
      Subnet column: the tunnel subnet is checked against it and saved
      first; the LAN subnet is checked against it and the tunnel subnet and
      saved second. */
  method AllocateServerSubnets(registry: Registry, existing: seq<string>, tunnelAnswers: seq<string>, lanAnswers: seq<string>)
    returns (tunnel: Option<Subnet>, lan: Option<Subnet>)
    requires registry.Valid() && existing == registry.SubnetList()
    modifies registry
    ensures registry.Valid()
    ensures tunnel == AcceptedSubnet(tunnelAnswers, existing)
    ensures tunnel.None? ==> lan.None? && registry.fileExists == old(registry.fileExists) && registry.rows == old(registry.rows)
    ensures tunnel.Some? ==> lan == AcceptedSubnet(lanAnswers, existing + [NetworkText(tunnel.value)])
    ensures tunnel.Some? && lan.Some? ==> !Overlaps(tunnel.value, lan.value)
    ensures tunnel.Some? ==>
      registry.rows == (if old(registry.fileExists) then old(registry.rows) else [Header])
                       + [Row(TunnelName, NetworkText(tunnel.value))]
                       + (if lan.Some? then [Row(LanName, NetworkText(lan.value))] else [])
    ensures tunnel.Some? && old(registry.HasHeader()) ==>
      registry.HasHeader()
      && registry.Records() == old(registry.Records()) + [Row(TunnelName, NetworkText(tunnel.value))]
                               + (if lan.Some? then [Row(LanName, NetworkText(lan.value))] else [])
    ensures old(registry.HasHeader()) && old(Disjoint(registry.Records())) ==> registry.HasHeader() && Disjoint(registry.Records())
  {
    ghost var rows0 := registry.Records();
    ghost var clean := registry.HasHeader() && Disjoint(rows0);
    var existingSubnets := existing;
    assert existingSubnets == SubnetColumn(rows0);
    tunnel := PromptSubnet(tunnelAnswers, existingSubnets);
    if tunnel.None? {
      return None, None;
    }
    var t := tunnel.value;
    registry.SaveSubnet(TunnelName, t);
    ghost var rows1 := registry.rows;
    existingSubnets := existingSubnets + [NetworkText(t)];
    lan := PromptSubnet(lanAnswers, existingSubnets);
    if lan.Some? {
      var l := lan.value;
      SecondAllocationAvoidsFirst(SubnetColumn(rows0), t, lanAnswers);
      registry.SaveSubnet(LanName, l);
      assert registry.rows == rows1 + [Row(LanName, NetworkText(l))];
    } else {
      assert rows1 + [] == rows1;
    }
    if clean {
      InitializeKeepsDisjoint(rows0, tunnelAnswers, lanAnswers);
    }
  }
}
