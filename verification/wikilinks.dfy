/** Wiki-link syntax: the Tiptap JSON document tree, the left-to-right scanner
    for the global regular expression `/\[\[([^\]]+)\]\]/g`, JavaScript's
    `String.prototype.trim`, and the pre-order walk that collects every
    capture of every text node. */
module WikiLinks {
  import opened Results

  /** A Tiptap JSON node. The source's `type` field is `kind` here; an absent
      `text` is the empty string and an absent `content` the empty sequence. */
  datatype Node = Node(kind: string, text: string, content: seq<Node>)

  // ---------------------------------------------------------------------------
  // The regular expression, as a scanner

  /** The regex matches at `i` with its capture group ending at `j`:
      `s[i..j+2]` is `[[`, then one or more characters other than `]`, then `]]`. */
  ghost predicate LinkAt(s: string, i: int, j: int) {
    && 0 <= i && i + 2 < j && j + 1 < |s|
    && s[i] == '[' && s[i + 1] == '['
    && (forall m :: i + 2 <= m < j ==> s[m] != ']')
    && s[j] == ']' && s[j + 1] == ']'
  }

  /** First position at or after `k` holding `]`, or `|s|` when there is none:
      where the greedy `[^\]]+` stops. */
  function RunEnd(s: string, k: nat): (j: nat)
    requires k <= |s|
    ensures k <= j <= |s|
    ensures forall m :: k <= m < j ==> s[m] != ']'
    ensures j < |s| ==> s[j] == ']'
    decreases |s| - k
  {
    if k == |s| || s[k] == ']' then k else RunEnd(s, k + 1)
  }

  /** A successful match: the capture group and the index just past the match
      (the regex's next `lastIndex`). */
  datatype Match = Match(capture: string, end: nat)

  /** One attempt of the regex anchored at `i`: the capture and the index
      just past the match, when there is one. Its meaning is `MatchAtMeaning`. */
  function MatchAt(s: string, i: nat): (r: Option<Match>)
    requires i <= |s|
    ensures r.Some? ==> i < r.value.end <= |s|
    ensures r.Some? ==> |r.value.capture| > 0 && ']' !in r.value.capture
  {
    if i + 1 < |s| && s[i] == '[' && s[i + 1] == '[' then
      var j := RunEnd(s, i + 2);
      if i + 2 < j && j + 1 < |s| && s[j + 1] == ']' then
        Some(Match(s[i + 2..j], j + 2))
      else
        None
    else
      None
  }

  /** Backtracking cannot help the greedy `[^\]]+`: a shorter run would be
      followed by a character other than `]`, so the regex matches at `i`
      exactly when the longest run is followed by `]]`, and then the capture
      is that run and the search resumes just past the closing brackets. */
  lemma MatchAtMeaning(s: string, i: nat)
    requires i <= |s|
    ensures MatchAt(s, i).Some? <==> exists j :: LinkAt(s, i, j)
    ensures forall j :: LinkAt(s, i, j) ==> MatchAt(s, i) == Some(Match(s[i + 2..j], j + 2))
  {
    if i + 1 < |s| && s[i] == '[' && s[i + 1] == '[' {
      var j := RunEnd(s, i + 2);
      if i + 2 < j && j + 1 < |s| && s[j + 1] == ']' {
        assert LinkAt(s, i, j);
      }
    }
  }

  /** Repeated `regex.exec` from `lastIndex = i`: the leftmost match at or
      after `i`, then the search resumes just past it (matches never overlap). */
  function Scan(s: string, i: nat): (caps: seq<string>)
    requires i <= |s|
    ensures forall c :: c in caps ==> |c| > 0 && ']' !in c
    decreases |s| - i
  {
    if i == |s| then []
    else match MatchAt(s, i)
      case Some(m) => [m.capture] + Scan(s, m.end)
      case None => Scan(s, i + 1)
  }

  /** Every capture of the regex in one text, scanning from its start. */
  function Captures(s: string): seq<string> {
    Scan(s, 0)
  }

  /** The scan from `i` looks only at `s[i..]`, so a prefix changes nothing. */
  lemma {:induction false} RunEndShift(a: string, b: string, k: nat)
    requires k <= |b|
    ensures RunEnd(a + b, |a| + k) == |a| + RunEnd(b, k)
    decreases |b| - k
  {
    if k < |b| && b[k] != ']' {
      RunEndShift(a, b, k + 1);
    }
  }

  lemma MatchAtShift(a: string, b: string, i: nat)
    requires i <= |b|
    ensures MatchAt(b, i).None? ==> MatchAt(a + b, |a| + i).None?
    ensures MatchAt(b, i).Some? ==>
      MatchAt(a + b, |a| + i) == Some(Match(MatchAt(b, i).value.capture, |a| + MatchAt(b, i).value.end))
  {
    if i + 1 < |b| {
      RunEndShift(a, b, i + 2);
      var j := RunEnd(b, i + 2);
      if j <= |b| {
        assert (a + b)[|a| + i + 2..|a| + j] == b[i + 2..j];
      }
    }
  }

  lemma {:induction false} ScanShift(a: string, b: string, i: nat)
    requires i <= |b|
    ensures Scan(a + b, |a| + i) == Scan(b, i)
    decreases |b| - i
  {
    if i < |b| {
      MatchAtShift(a, b, i);
      var r := MatchAt(b, i);
      if r.Some? {
        ScanShift(a, b, r.value.end);
      } else {
        ScanShift(a, b, i + 1);
      }
    }
  }

  /** Text without `[` contributes nothing and does not disturb what follows. */
  lemma {:induction false} ScanSkipsPlain(p: string, rest: string, i: nat)
    requires '[' !in p && i <= |p|
    ensures Scan(p + rest, i) == Scan(rest, 0)
    decreases |p| - i
  {
    if i == |p| {
      ScanShift(p, rest, 0);
      assert |p| + 0 == i;
    } else {
      assert (p + rest)[i] == p[i];
      ScanSkipsPlain(p, rest, i + 1);
    }
  }

  /** A well-formed `[[x]]` at the scan position yields exactly `x`. */
  lemma LinkThenRest(x: string, rest: string)
    requires |x| > 0 && ']' !in x
    ensures Scan("[[" + x + "]]" + rest, 0) == [x] + Scan(rest, 0)
  {
    var s := "[[" + x + "]]" + rest;
    var j := |x| + 2;
    assert s[2..j] == x;
    assert LinkAt(s, 0, j);
    MatchAtMeaning(s, 0);
    assert s == ("[[" + x + "]]") + rest;
    ScanShift("[[" + x + "]]", rest, 0);
  }

  // ---------------------------------------------------------------------------
  // A reference grammar: texts built from plain runs and well-formed links

  /** A piece of text: a run that contains no `[`, or a link `[[title]]`. */
  datatype Piece = Plain(run: string) | Link(title: string)

  ghost predicate WellFormedPiece(p: Piece) {
    match p
    case Plain(run) => '[' !in run
    case Link(title) => |title| > 0 && ']' !in title
  }

  /** The text a sequence of pieces spells. */
  function Render(ps: seq<Piece>): string {
    if ps == [] then ""
    else
      (match ps[0]
       case Plain(run) => run
       case Link(title) => "[[" + title + "]]")
      + Render(ps[1..])
  }

  /** The titles of the link pieces, in order. */
  function Titles(ps: seq<Piece>): seq<string> {
    if ps == [] then []
    else (if ps[0].Link? then [ps[0].title] else []) + Titles(ps[1..])
  }

  /** Round trip: scanning a rendered text recovers exactly its link titles. */
  lemma {:induction false} CapturesOfRender(ps: seq<Piece>)
    requires forall k :: 0 <= k < |ps| ==> WellFormedPiece(ps[k])
    ensures Captures(Render(ps)) == Titles(ps)
  {
    if ps != [] {
      CapturesOfRender(ps[1..]);
      match ps[0]
      case Plain(run) =>
        ScanSkipsPlain(run, Render(ps[1..]), 0);
      case Link(title) =>
        LinkThenRest(title, Render(ps[1..]));
    }
  }

  /** Text with no `[` holds no link. */
  lemma NoBracketNoLinks(s: string)
    requires '[' !in s
    ensures Captures(s) == []
  {
    ScanSkipsPlain(s, "", 0);
    assert s + "" == s;
  }

  // ---------------------------------------------------------------------------
  // String.prototype.trim

  /** The characters `trim` removes: ECMAScript WhiteSpace and LineTerminator. */
  predicate IsSpace(c: char) {
    || c == '\t' || c == '\n' || c == '\U{000B}' || c == '\U{000C}' || c == '\r'
    || c == ' ' || c == '\U{00A0}' || c == '\U{1680}'
    || ('\U{2000}' <= c <= '\U{200A}')
    || c == '\U{2028}' || c == '\U{2029}' || c == '\U{202F}' || c == '\U{205F}'
    || c == '\U{3000}' || c == '\U{FEFF}'
  }

  function TrimStart(s: string): (r: string)
    ensures |r| <= |s| && r == s[|s| - |r|..]
    ensures forall k :: 0 <= k < |s| - |r| ==> IsSpace(s[k])
    ensures r != [] ==> !IsSpace(r[0])
  {
    if s != [] && IsSpace(s[0]) then TrimStart(s[1..]) else s
  }

  function TrimEnd(s: string): (r: string)
    ensures |r| <= |s| && r == s[..|r|]
    ensures forall k :: |r| <= k < |s| ==> IsSpace(s[k])
    ensures r != [] ==> !IsSpace(r[|r| - 1])
  {
    if s != [] && IsSpace(s[|s| - 1]) then TrimEnd(s[..|s| - 1]) else s
  }

  /** `s.trim()`: the longest slice of `s` that neither starts nor ends with white space. */
  function Trim(s: string): (r: string)
    ensures |r| <= |s|
    ensures r != [] ==> !IsSpace(r[0]) && !IsSpace(r[|r| - 1])
  {
    TrimEnd(TrimStart(s))
  }

  /** `trim` cuts a slice out of `s` and removes only white space around it. */
  lemma TrimIsSlice(s: string)
    ensures |s| - |TrimStart(s)| + |Trim(s)| <= |s|
    ensures Trim(s) == s[|s| - |TrimStart(s)|..|s| - |TrimStart(s)| + |Trim(s)|]
    ensures forall k :: 0 <= k < |s| - |TrimStart(s)| ==> IsSpace(s[k])
    ensures forall k :: |s| - |TrimStart(s)| + |Trim(s)| <= k < |s| ==> IsSpace(s[k])
  {
    var t := TrimStart(s);
    var r := TrimEnd(t);
    var a := |s| - |t|;
    assert t == s[a..];
    assert r == t[..|r|];
    forall k | a + |r| <= k < |s|
      ensures IsSpace(s[k])
    {
      assert s[k] == t[k - a];
    }
  }

  /** Neither end of `s` is white space. */
  predicate NoOuterSpace(s: string) {
    s == [] || (!IsSpace(s[0]) && !IsSpace(s[|s| - 1]))
  }

  /** A string with no white space at either end is left as it is. */
  lemma TrimNoop(s: string)
    requires NoOuterSpace(s)
    ensures Trim(s) == s
  {
  }

  /** Trimming twice is trimming once. */
  lemma TrimIdempotent(s: string)
    ensures Trim(Trim(s)) == Trim(s)
  {
    TrimNoop(Trim(s));
  }

  // ---------------------------------------------------------------------------
  // Walking the document tree

  /** `node.type === 'text' && node.text`: a text node with non-empty text. */
  predicate IsTextNode(n: Node) {
    n.kind == "text" && n.text != ""
  }

  /** What a single node contributes, ignoring its children. */
  function OwnCaptures(n: Node): seq<string> {
    if IsTextNode(n) then Captures(n.text) else []
  }

  /** The recursive `traverse`: a node's own captures, then those of its
      children in array order. */
  function TreeCaptures(n: Node): (caps: seq<string>)
    ensures forall c :: c in caps ==> |c| > 0 && ']' !in c
    decreases n, 1
  {
    OwnCaptures(n) + ForestCaptures(n.content)
  }

  function ForestCaptures(ns: seq<Node>): (caps: seq<string>)
    ensures forall c :: c in caps ==> |c| > 0 && ']' !in c
    decreases ns, 0
  {
    if ns == [] then [] else TreeCaptures(ns[0]) + ForestCaptures(ns[1..])
  }

  /** The nodes of a tree in pre-order: the node, then each child's subtree in order. */
  function PreOrder(n: Node): (ns: seq<Node>)
    ensures |ns| > 0 && ns[0] == n
    decreases n, 1
  {
    [n] + PreOrderForest(n.content)
  }

  function PreOrderForest(ns: seq<Node>): seq<Node>
    decreases ns, 0
  {
    if ns == [] then [] else PreOrder(ns[0]) + PreOrderForest(ns[1..])
  }

  /** The captures of a list of nodes, node by node. */
  function ConcatOwn(ns: seq<Node>): seq<string> {
    if ns == [] then [] else OwnCaptures(ns[0]) + ConcatOwn(ns[1..])
  }

  lemma {:induction false} ConcatOwnAppend(a: seq<Node>, b: seq<Node>)
    ensures ConcatOwn(a + b) == ConcatOwn(a) + ConcatOwn(b)
  {
    if a == [] {
      assert a + b == b;
    } else {
      assert (a + b)[0] == a[0];
      assert (a + b)[1..] == a[1..] + b;
      ConcatOwnAppend(a[1..], b);
    }
  }

  /** The walk visits text nodes in pre-order: its result is the captures of
      the pre-order node list, concatenated. */
  lemma {:induction false} TreeCapturesIsPreOrder(n: Node)
    ensures TreeCaptures(n) == ConcatOwn(PreOrder(n))
    decreases n, 1
  {
    ForestCapturesIsPreOrder(n.content);
    ConcatOwnAppend([n], PreOrderForest(n.content));
    assert ConcatOwn([n]) == OwnCaptures(n);
  }

  lemma {:induction false} ForestCapturesIsPreOrder(ns: seq<Node>)
    ensures ForestCaptures(ns) == ConcatOwn(PreOrderForest(ns))
    decreases ns, 0
  {
    if ns != [] {
      TreeCapturesIsPreOrder(ns[0]);
      ForestCapturesIsPreOrder(ns[1..]);
      ConcatOwnAppend(PreOrder(ns[0]), PreOrderForest(ns[1..]));
    }
  }

  /** A document holding one paragraph holding one text node. */
  function SingleParagraph(text: string): Node {
    Node("doc", "", [Node("paragraph", "", [Node("text", text, [])])])
  }

  lemma SingleParagraphCaptures(text: string)
    ensures TreeCaptures(SingleParagraph(text)) == Captures(text)
  {
    var t := Node("text", text, []);
    var p := Node("paragraph", "", [t]);
    assert ForestCaptures([t]) == TreeCaptures(t) + ForestCaptures([t][1..]);
    assert ForestCaptures([p]) == TreeCaptures(p) + ForestCaptures([p][1..]);
    if text == "" {
      assert Captures(text) == [];
    }
  }
}
