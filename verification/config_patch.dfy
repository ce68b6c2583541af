/** The line rewrite that `LidarrHelper.modify_config` applies to Lidarr's
    `config.xml`: a line whose stripped text starts with the opening tag of a
    supplied element is replaced by a canonical `  <Tag>value</Tag>\n` line,
    and every other line is echoed unchanged. A line is a `string` that keeps
    its own line terminator, as Python's file iteration yields it. */
module ConfigPatch {
  import opened Python

  /** The four elements the patcher may rewrite, in the order it tests them. */
  datatype Tag = Port | UrlBase | SslPort | AuthenticationMethod

  /** The keyword arguments of `modify_config`; each is `None` when not given. */
  datatype PatchArgs = PatchArgs(port: Value, sslPort: Value, auth: Value, urlBase: Value)

  function Name(t: Tag): string
  {
    match t
    case Port => "Port"
    case UrlBase => "UrlBase"
    case SslPort => "SslPort"
    case AuthenticationMethod => "AuthenticationMethod"
  }

  function Open(t: Tag): string
  {
    "<" + Name(t) + ">"
  }

  /** The argument that controls element `t`. */
  function Arg(a: PatchArgs, t: Tag): Value
  {
    match t
    case Port => a.port
    case UrlBase => a.urlBase
    case SslPort => a.sslPort
    case AuthenticationMethod => a.auth
  }

  /** The element text written for `t`: `str()` of the argument, except that a
      url base equal to the string "None" clears the element. */
  function NewText(a: PatchArgs, t: Tag): string
  {
    if t == UrlBase && a.urlBase == VStr("None") then "" else Str(Arg(a, t))
  }

  /** The canonical replacement line, two spaces of indentation and a newline. */
  function Element(t: Tag, text: string): string
  {
    "  " + Open(t) + text + "</" + Name(t) + ">\n"
  }

  /** Line `line` is one the patcher rewrites for `t`: its stripped text starts
      with `<t>` and the argument for `t` is truthy. */
  predicate Supplied(line: string, a: PatchArgs, t: Tag)
  {
    StartsWith(Strip(line), Open(t)) && Truthy(Arg(a, t))
  }

  /** One of the four `if` statements of the loop body. */
  function Step(line: string, a: PatchArgs, t: Tag): string
  {
    if Supplied(line, a, t) then Element(t, NewText(a, t)) else line
  }

  /** The loop body: the four tests applied in order, each to the line as the
      previous one left it. */
  function RewriteLine(line: string, a: PatchArgs): string
  {
    Step(Step(Step(Step(line, a, Port), a, UrlBase), a, SslPort), a, AuthenticationMethod)
  }

  /** The loop over the file's lines: the strings it prints, one per line
      read, each the rewrite of that line. */
  function Patch(lines: seq<string>, a: PatchArgs): (r: seq<string>)
    ensures |r| == |lines|
  {
    seq(|lines|, i requires 0 <= i < |lines| => RewriteLine(lines[i], a))
  }

  /** Patching a file with one more line appends that line's rewrite. */
  lemma PatchSnoc(lines: seq<string>, line: string, a: PatchArgs)
    ensures Patch(lines + [line], a) == Patch(lines, a) + [RewriteLine(line, a)]
  {
    assert forall i :: 0 <= i < |lines| ==> (lines + [line])[i] == lines[i];
  }

  /** The loop after one more iteration: the first `i + 1` lines patched are
      the first `i` patched and then the rewrite of line `i`. */
  lemma PatchPrefixSnoc(lines: seq<string>, i: nat, a: PatchArgs)
    requires i < |lines|
    ensures Patch(lines[..i + 1], a) == Patch(lines[..i], a) + [RewriteLine(lines[i], a)]
  {
    assert lines[..i + 1] == lines[..i] + [lines[i]];
    PatchSnoc(lines[..i], lines[i], a);
  }

  /** No text starts with the opening tags of two different elements. */
  lemma OpenExclusive(s: string, t: Tag, u: Tag)
    requires StartsWith(s, Open(t)) && StartsWith(s, Open(u))
    ensures t == u
  {
    assert s[1] == Open(t)[1] == Name(t)[0];
    assert s[1] == Open(u)[1] == Name(u)[0];
  }

  /** Two spaces of indentation before a tag are dropped by `strip()`. */
  lemma IndentedStartsWith(open: string, tail: string)
    requires |open| > 0 && open[0] == '<' && open[|open| - 1] == '>'
    ensures StartsWith(Strip("  " + open + tail), open)
  {
    var rest := open + tail;
    assert "  " + open + tail == "  " + rest;
    assert rest[0] == '<' && !IsSpace('<');
    TrimLeftAfterSpaces("  ", rest);
    assert rest[..|open|] == open;
    assert !IsSpace('>');
    StripKeepsPrefix("  " + rest, open);
  }

  /** A canonical line strips to text that starts with its own opening tag. */
  lemma ElementStartsWithTag(t: Tag, text: string)
    ensures StartsWith(Strip(Element(t, text)), Open(t))
  {
    var tail := text + "</" + Name(t) + ">\n";
    assert Element(t, text) == "  " + Open(t) + tail;
    IndentedStartsWith(Open(t), tail);
  }

  /** Once a line has been replaced for `t`, the later tests leave it alone. */
  lemma StepKeepsElement(t: Tag, text: string, a: PatchArgs, u: Tag)
    requires t != u
    ensures Step(Element(t, text), a, u) == Element(t, text)
  {
    ElementStartsWithTag(t, text);
    if StartsWith(Strip(Element(t, text)), Open(u)) {
      OpenExclusive(Strip(Element(t, text)), t, u);
    }
  }

  /** The sequential rewrite agrees with the order-free description: a line
      supplied for some element becomes that element's canonical line, and a
      line supplied for none is echoed unchanged. */
  lemma RewriteLineSpec(line: string, a: PatchArgs)
    ensures (forall t :: !Supplied(line, a, t)) ==> RewriteLine(line, a) == line
    ensures forall t :: Supplied(line, a, t) ==> RewriteLine(line, a) == Element(t, NewText(a, t))
  {
    forall t, u | Supplied(line, a, t) && Supplied(line, a, u)
      ensures t == u
    {
      OpenExclusive(Strip(line), t, u);
    }
    if Supplied(line, a, Port) {
      StepKeepsElement(Port, NewText(a, Port), a, UrlBase);
      StepKeepsElement(Port, NewText(a, Port), a, SslPort);
      StepKeepsElement(Port, NewText(a, Port), a, AuthenticationMethod);
    } else if Supplied(line, a, UrlBase) {
      StepKeepsElement(UrlBase, NewText(a, UrlBase), a, SslPort);
      StepKeepsElement(UrlBase, NewText(a, UrlBase), a, AuthenticationMethod);
    } else if Supplied(line, a, SslPort) {
      StepKeepsElement(SslPort, NewText(a, SslPort), a, AuthenticationMethod);
    }
  }

  /** Rewriting a line a second time with the same arguments changes nothing. */
  lemma RewriteLineIdempotent(line: string, a: PatchArgs)
    ensures RewriteLine(RewriteLine(line, a), a) == RewriteLine(line, a)
  {
    RewriteLineSpec(line, a);
    var r := RewriteLine(line, a);
    RewriteLineSpec(r, a);
    if t :| Supplied(line, a, t) {
      ElementStartsWithTag(t, NewText(a, t));
      assert Supplied(r, a, t);
    }
  }

  /** The patched file has exactly as many lines as the original; a line
      supplied for element `t` becomes `t`'s canonical line, and every other
      line stays the same text at the same position. */
  lemma PatchSpec(lines: seq<string>, a: PatchArgs)
    ensures |Patch(lines, a)| == |lines|
    ensures forall i, t :: 0 <= i < |lines| && Supplied(lines[i], a, t) ==>
              Patch(lines, a)[i] == Element(t, NewText(a, t))
    ensures forall i :: 0 <= i < |lines| && (forall t :: !Supplied(lines[i], a, t)) ==>
              Patch(lines, a)[i] == lines[i]
  {
    forall i | 0 <= i < |lines|
      ensures (forall t :: !Supplied(lines[i], a, t)) ==> Patch(lines, a)[i] == lines[i]
      ensures forall t :: Supplied(lines[i], a, t) ==> Patch(lines, a)[i] == Element(t, NewText(a, t))
    {
      RewriteLineSpec(lines[i], a);
    }
  }

  /** A line whose stripped text opens element `t` is replaced exactly when the
      argument for `t` is truthy, and then reads `  <t>text</t>\n` with the text
      `NewText` gives (`str()` of the argument, or nothing for a url base of
      "None"); with a `None` or falsy argument it is left untouched. */
  lemma PatchTagLine(lines: seq<string>, a: PatchArgs, i: nat, t: Tag)
    requires i < |lines| && StartsWith(Strip(lines[i]), Open(t))
    ensures Truthy(Arg(a, t)) ==> Patch(lines, a)[i] == Element(t, NewText(a, t))
    ensures !Truthy(Arg(a, t)) ==> Patch(lines, a)[i] == lines[i]
  {
    PatchSpec(lines, a);
    if Truthy(Arg(a, t)) {
      assert Supplied(lines[i], a, t);
    } else {
      forall u | Supplied(lines[i], a, u)
        ensures false
      {
        OpenExclusive(Strip(lines[i]), t, u);
      }
    }
  }

  /** A url base of "None" clears every `<UrlBase>` line to the empty element,
      never the text "None"; any other non-empty url base string is written
      verbatim. */
  lemma UrlBaseElement(lines: seq<string>, a: PatchArgs, i: nat)
    requires i < |lines| && StartsWith(Strip(lines[i]), "<UrlBase>")
    ensures a.urlBase == VStr("None") ==> Patch(lines, a)[i] == "  <UrlBase></UrlBase>\n"
    ensures a.urlBase.VStr? && a.urlBase != VStr("None") && a.urlBase.s != "" ==>
              Patch(lines, a)[i] == "  <UrlBase>" + a.urlBase.s + "</UrlBase>\n"
  {
    assert Open(UrlBase) == "<UrlBase>";
    PatchTagLine(lines, a, i, UrlBase);
    UrlBaseText(NewText(a, UrlBase));
  }

  lemma UrlBaseText(text: string)
    ensures Element(UrlBase, text) == "  <UrlBase>" + text + "</UrlBase>\n"
    ensures Element(UrlBase, "") == "  <UrlBase></UrlBase>\n"
  {
  }

  /** Patching is idempotent: a second run with the same arguments gives the
      same lines as the first. */
  lemma PatchIdempotent(lines: seq<string>, a: PatchArgs)
    ensures Patch(Patch(lines, a), a) == Patch(lines, a)
  {
    forall i | 0 <= i < |lines|
      ensures Patch(Patch(lines, a), a)[i] == Patch(lines, a)[i]
    {
      RewriteLineIdempotent(lines[i], a);
    }
  }

  // ----- The file as text -----

  /** No text the patcher can write holds a line break. */
  predicate CleanArgs(a: PatchArgs)
  {
    forall t :: NoBreak(NewText(a, t))
  }

  /** Only string arguments can bring a line break: with none in the
      strings given, the arguments are clean. */
  lemma CleanArgsOf(a: PatchArgs)
    requires a.port.VStr? ==> NoBreak(a.port.s)
    requires a.sslPort.VStr? ==> NoBreak(a.sslPort.s)
    requires a.auth.VStr? ==> NoBreak(a.auth.s)
    requires a.urlBase.VStr? ==> NoBreak(a.urlBase.s)
    ensures CleanArgs(a)
  {
    forall t
      ensures NoBreak(NewText(a, t))
    {
      if !(t == UrlBase && a.urlBase == VStr("None")) {
        StrSpec(Arg(a, t));
      }
    }
  }

  lemma NameNoBreak(t: Tag)
    ensures NoBreak(Name(t))
  {
    match t
    case Port =>
    case UrlBase =>
    case SslPort =>
    case AuthenticationMethod =>
  }

  /** The text a canonical line puts before and after the value holds no
      line break. */
  lemma ElementTagsNoBreak(t: Tag)
    ensures NoBreak("  " + Open(t)) && NoBreak("</" + Name(t) + ">")
  {
    NameNoBreak(t);
    NoBreakConcat("<", Name(t));
    NoBreakConcat("<" + Name(t), ">");
    NoBreakConcat("  ", Open(t));
    NoBreakConcat("</", Name(t));
    NoBreakConcat("</" + Name(t), ">");
  }

  /** A canonical line with clean text is a single line ending in `\n`. */
  lemma ElementIsLine(t: Tag, text: string)
    requires NoBreak(text)
    ensures IsLine(Element(t, text)) && Element(t, text)[|Element(t, text)| - 1] == '\n'
  {
    var front, back := "  " + Open(t), "</" + Name(t) + ">";
    ElementTagsNoBreak(t);
    NoBreakConcat(front, text);
    NoBreakConcat(front + text, back);
    var e := Element(t, text);
    assert e == (front + text + back) + "\n";
    assert e[..|e| - 1] == front + text + back;
  }

  /** With clean arguments the printed lines are again well formed. */
  lemma PatchWellFormed(lines: seq<string>, a: PatchArgs)
    requires WellFormed(lines) && CleanArgs(a)
    ensures WellFormed(Patch(lines, a))
  {
    var p := Patch(lines, a);
    forall i | 0 <= i < |p|
      ensures IsLine(p[i]) && (i < |p| - 1 ==> p[i][|p[i]| - 1] == '\n')
    {
      RewriteLineSpec(lines[i], a);
      if t :| Supplied(lines[i], a, t) {
        ElementIsLine(t, NewText(a, t));
      }
    }
  }

  /** `modify_config` on the file's text: read as lines, every line
      rewritten, the results printed back one after another. */
  function PatchFile(text: string, a: PatchArgs): string
  {
    Concat(Patch(SplitLines(text), a))
  }

  /** With clean arguments the file read back after patching has exactly the
      lines the loop printed: as many lines as before, each the rewrite of the
      line at the same position. */
  lemma PatchFileSpec(text: string, a: PatchArgs)
    requires NoCarriageReturn(text) && CleanArgs(a)
    ensures SplitLines(PatchFile(text, a)) == Patch(SplitLines(text), a)
    ensures |SplitLines(PatchFile(text, a))| == |SplitLines(text)|
  {
    SplitLinesWellFormed(text);
    PatchWellFormed(SplitLines(text), a);
    SplitConcat(Patch(SplitLines(text), a));
  }

  /** With clean arguments, running `modify_config` a second time with the
      same arguments leaves the file as the first run left it. */
  lemma PatchFileIdempotent(text: string, a: PatchArgs)
    requires NoCarriageReturn(text) && CleanArgs(a)
    ensures PatchFile(PatchFile(text, a), a) == PatchFile(text, a)
  {
    PatchFileSpec(text, a);
    PatchIdempotent(SplitLines(text), a);
  }
}
