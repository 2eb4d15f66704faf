/** The target corpus: `readTargets` turns the lines of a targets file into
    the list of requests, and `nextRequest` hands them out round-robin.

    A targets file is a sequence of entries

        METHOD URL
        $ BODY          (optional: `{}` also means "no body")

    separated by any number of blank lines. A line after `METHOD URL` that is
    neither `{}` nor starts with `$ ` is not a body: it is pushed back and
    read as the next request line. */
module Targets {
  import opened Faults
  import opened GoStrings
  import opened GoStrconv
  import opened UrlTemplate
  import opened GoInts

  /** One request of the corpus. */
  datatype Request = Request(verb: string, url: string, body: seq<byte>)

  /** The requests one `METHOD URL` line contributes: one per expanded URL,
      in order, all with the same method (`verb`) and body. */
  function Requests(verb: string, urls: seq<string>, body: seq<byte>): (rs: seq<Request>)
    ensures |rs| == |urls|
    ensures forall i :: 0 <= i < |urls| ==> rs[i] == Request(verb, urls[i], body)
  {
    seq(|urls|, i requires 0 <= i < |urls| => Request(verb, urls[i], body))
  }

  /** What reading the line after a request line yields: the body, the lines
      still unread, and the line pushed back (`""` when there is none). */
  datatype BodyRead = BodyRead(body: seq<byte>, rest: seq<string>, pushback: string)

  /** The body part of `readTargets`' loop. `rest` are the lines after the
      request line; `decode` is the standard base64 decoder, used when
      `base64body` is set. */
  function ReadBody(rest: seq<string>, base64body: bool, decode: string -> Option<seq<byte>>)
    : (r: Result<BodyRead>)
    ensures r.Ok? && |rest| == 0 ==> r.value.rest == [] && r.value.pushback == ""
    ensures r.Ok? && |rest| > 0 ==> r.value.rest == rest[1..]
    ensures r.Ok? && |rest| > 0 ==>
      var line := TrimSpace(rest[0]);
      && r.value.pushback == (if line == "{}" || HasPrefix(line, "$ ") then "" else line)
      && (!HasPrefix(line, "$ ") ==> r.value.body == [])
    ensures r.Fail? <==>
      |rest| > 0 && base64body && HasPrefix(TrimSpace(rest[0]), "$ ") && decode(TrimSpace(rest[0])[2..]).None?
    ensures r.Fail? ==> r.fault == BodyNotBase64
  {
    if |rest| == 0 then Ok(BodyRead([], [], ""))
    else
      var line := TrimSpace(rest[0]);
      if line == "{}" then Ok(BodyRead([], rest[1..], ""))
      else if !HasPrefix(line, "$ ") then Ok(BodyRead([], rest[1..], line))
      else if base64body then
        match decode(line[2..])
        case None => Fail(BodyNotBase64)
        case Some(bytes) => Ok(BodyRead(bytes, rest[1..], ""))
      else Ok(BodyRead(Utf8(line[2..]), rest[1..], ""))
  }

  /** How the URL text of a request line becomes URLs: `parseUrl` with the
      random draws from position `pos` on, returning the next free position. */
  type Expander = (string, nat) -> Result<(seq<string>, nat)>

  /** `parseUrl` over the draw oracle `draw`. */
  function UrlExpander(draw: nat -> nat): Expander {
    (url: string, pos: nat) => ParseUrl(url, draw, pos)
  }

  /** `readTargets` from the point where `lines` are unread and `pushback`
      (when not `""`) is the line to handle first. The URLs of each request
      line come from `expand`, whose draw position `pos` threads through the
      lines in order. */
  function ReadFrom(lines: seq<string>, pushback: string, base64body: bool, decode: string -> Option<seq<byte>>,
                    expand: Expander, pos: nat)
    : (r: Result<(seq<Request>, nat)>)
    decreases |lines| + (if pushback == "" then 0 else 1), 1
  {
    if pushback == "" && |lines| == 0 then Ok(([], pos))
    else
      var line := if pushback != "" then pushback else TrimSpace(lines[0]);
      var rest := if pushback != "" then lines else lines[1..];
      if line == "" then ReadFrom(rest, "", base64body, decode, expand, pos)
      else ReadRequest(line, rest, base64body, decode, expand, pos)
  }

  /** One pass of the loop past a non-blank `line`: split it into method and
      URL at the first space (Go indexes `parts[1]`, which panics when there
      is no space), read the body line, expand the URL, and go on. */
  function ReadRequest(line: string, rest: seq<string>, base64body: bool, decode: string -> Option<seq<byte>>,
                       expand: Expander, pos: nat)
    : (r: Result<(seq<Request>, nat)>)
    decreases |rest| + 1, 0
  {
    var parts := SplitAfterN2(line, ' ');
    if |parts| < 2 then Fail(Panic(IndexOutOfRange))
    else
      var b :- ReadBody(rest, base64body, decode);
      var urls :- expand(TrimSpace(parts[1]), pos);
      var tail :- ReadFrom(b.rest, b.pushback, base64body, decode, expand, urls.1);
      Ok((Requests(TrimSpace(parts[0]), urls.0, b.body) + tail.0, tail.1))
  }

  /** `readTargets`: the whole corpus of a targets file, or the first error.
      The draws of the random placeholders come from `draw`, starting at
      position `pos`. */
  function ReadTargets(lines: seq<string>, base64body: bool, decode: string -> Option<seq<byte>>,
                       draw: nat -> nat, pos: nat)
    : Result<(seq<Request>, nat)>
  {
    ReadFrom(lines, "", base64body, decode, UrlExpander(draw), pos)
  }

  // ---------------------------------------------------------------------
  // The format, written the other way round

  /** The line after a request line, as a writer of targets files means it. */
  datatype BodyLine =
    | NoBody           // no body line: the next line is the next request
    | Braces           // `{}`
    | Dollar(text: string)  // `$ text`

  datatype Entry = Entry(verb: string, url: string, bodyLine: BodyLine)

  /** No white space anywhere in `s`. */
  predicate Solid(s: string) {
    forall i :: 0 <= i < |s| ==> !IsSpace(s[i])
  }

  /** An entry the reader gets back unchanged: a method without white space
      that is not `$` (a `$ url` line right after a body-less entry would be
      read as that entry's body), a URL without white space at its ends, and
      a body text whose last character is not white space. */
  predicate WellFormed(e: Entry) {
    && |e.verb| > 0 && Solid(e.verb) && e.verb != "$"
    && |e.url| > 0 && !IsSpace(e.url[0]) && !IsSpace(e.url[|e.url| - 1])
    && (e.bodyLine.Dollar? ==> |e.bodyLine.text| > 0 && !IsSpace(e.bodyLine.text[|e.bodyLine.text| - 1]))
  }

  /** The request line of an entry. */
  function RequestText(e: Entry): string {
    e.verb + " " + e.url
  }

  /** The lines after the request line: none, or the body line and a blank one. */
  function BodyLines(b: BodyLine): seq<string> {
    match b
    case NoBody => []
    case Braces => ["{}", ""]
    case Dollar(text) => ["$ " + text, ""]
  }

  /** A targets file holding `es` in order. */
  function Render(es: seq<Entry>): seq<string>
    decreases |es|
  {
    if |es| == 0 then [] else [RequestText(es[0])] + (BodyLines(es[0].bodyLine) + Render(es[1..]))
  }

  /** The body an entry stands for. */
  function EntryBody(b: BodyLine, base64body: bool, decode: string -> Option<seq<byte>>): Option<seq<byte>> {
    match b
    case NoBody => Some([])
    case Braces => Some([])
    case Dollar(text) => if base64body then decode(text) else Some(Utf8(text))
  }

  /** The corpus `es` stands for, entry by entry: each URL expanded by
      `parseUrl`, with the entry's method and body. */
  function ExpandEntries(es: seq<Entry>, base64body: bool, decode: string -> Option<seq<byte>>,
                         expand: Expander, pos: nat)
    : (r: Result<(seq<Request>, nat)>)
    requires forall k :: 0 <= k < |es| ==> EntryBody(es[k].bodyLine, base64body, decode).Some?
    decreases |es|
  {
    if |es| == 0 then Ok(([], pos))
    else
      var urls :- expand(es[0].url, pos);
      var tail :- ExpandEntries(es[1..], base64body, decode, expand, urls.1);
      Ok((Requests(es[0].verb, urls.0, EntryBody(es[0].bodyLine, base64body, decode).value) + tail.0, tail.1))
  }

  // ---------------------------------------------------------------------
  // Lemmas

  /** A solid non-empty string followed by one space trims back to itself. */
  lemma TrimTrailingSpace(m: string)
    requires |m| > 0 && Solid(m)
    ensures TrimSpace(m + " ") == m
  {
    var s := m + " ";
    assert s[0] == m[0];
    assert TrimLeft(s) == s;
    assert s[..|s| - 1] == m;
    assert TrimRight(s) == TrimRight(m);
    assert TrimRight(m) == m;
  }

  /** A request line of a well-formed entry is read back as its method and URL. */
  lemma RequestLine(e: Entry)
    requires WellFormed(e)
    ensures var line := RequestText(e);
      && TrimSpace(line) == line
      && SplitAfterN2(line, ' ') == [e.verb + " ", e.url]
      && TrimSpace(e.verb + " ") == e.verb
      && TrimSpace(e.url) == e.url
  {
    var line := RequestText(e);
    assert line[0] == e.verb[0] && line[|line| - 1] == e.url[|e.url| - 1];
    assert ' ' !in e.verb by {
      assert IsSpace(' ');
    }
    SplitAfterN2At(e.verb, ' ', e.url);
    TrimTrailingSpace(e.verb);
  }

  /** Nothing but white space (the empty line included). */
  predicate Blank(line: string) {
    forall i :: 0 <= i < |line| ==> IsSpace(line[i])
  }

  /** Trimming leaves nothing of a blank line, and only of a blank line. */
  lemma TrimSpaceEmpty(line: string)
    ensures TrimSpace(line) == "" <==> Blank(line)
  {
    var l := TrimLeft(line);
    if |l| > 0 {
      assert l[0] == line[|line| - |l|];
    }
    if !Blank(line) {
      var i :| 0 <= i < |line| && !IsSpace(line[i]);
      assert l[i - (|line| - |l|)] == line[i];
      assert TrimSpace(line) == TrimRight(l);
    }
  }

  /** A blank line is skipped. */
  lemma SkipBlank(line: string, lines: seq<string>, base64body: bool, decode: string -> Option<seq<byte>>,
                  expand: Expander, pos: nat)
    requires Blank(line)
    ensures ReadFrom([line] + lines, "", base64body, decode, expand, pos) == ReadFrom(lines, "", base64body, decode, expand, pos)
  {
    TrimSpaceEmpty(line);
    assert ([line] + lines)[1..] == lines;
  }

  /** A pushed-back line is handled exactly as if it were still unread. */
  lemma PushbackSame(lines: seq<string>, base64body: bool, decode: string -> Option<seq<byte>>,
                     expand: Expander, pos: nat)
    requires |lines| > 0 && TrimSpace(lines[0]) == lines[0] != ""
    ensures ReadFrom(lines[1..], lines[0], base64body, decode, expand, pos)
         == ReadFrom(lines, "", base64body, decode, expand, pos)
  {
  }

  /** What may follow an entry: nothing, or a request line the body reader
      pushes back. */
  predicate StartsEntry(lines: seq<string>) {
    |lines| == 0 || (TrimSpace(lines[0]) == lines[0] != "" && lines[0] != "{}" && !HasPrefix(lines[0], "$ "))
  }

  /** A request line is neither `{}` nor a body line. */
  lemma RequestLineNotBody(e: Entry)
    requires WellFormed(e)
    ensures var line := RequestText(e); line != "{}" && !HasPrefix(line, "$ ")
  {
    var line := RequestText(e);
    assert |line| >= 3;
    if |e.verb| == 1 {
      assert e.verb == [e.verb[0]];
      assert line[0] == e.verb[0] != '$';
    } else {
      assert line[1] == e.verb[1] && !IsSpace(e.verb[1]);
    }
    assert line[..2][0] == line[0] && line[..2][1] == line[1];
  }

  /** A rendered file starts with a request line. */
  lemma RenderStartsEntry(es: seq<Entry>)
    requires forall k :: 0 <= k < |es| ==> WellFormed(es[k])
    ensures StartsEntry(Render(es))
  {
    if |es| > 0 {
      var e := es[0];
      RequestLine(e);
      RequestLineNotBody(e);
      assert Render(es)[0] == RequestText(e);
    }
  }

  /** The body line of an entry, as the reader sees it. */
  lemma ReadBodyLine(e: Entry, R: seq<string>, base64body: bool, decode: string -> Option<seq<byte>>)
    requires WellFormed(e) && !e.bodyLine.NoBody? && EntryBody(e.bodyLine, base64body, decode).Some?
    ensures ReadBody(BodyLines(e.bodyLine) + R, base64body, decode)
         == Ok(BodyRead(EntryBody(e.bodyLine, base64body, decode).value, [""] + R, ""))
  {
    var lines := BodyLines(e.bodyLine) + R;
    assert (BodyLines(e.bodyLine) + R)[1..] == [""] + R;
    match e.bodyLine
    case Braces =>
      assert lines[0] == "{}";
      assert Trimmed("{}");
    case Dollar(text) =>
      assert lines[0] == "$ " + text;
      DollarLine(text);
  }

  /** A `$ text` line whose text does not end in white space is read as a
      body line holding exactly `text`. */
  lemma DollarLine(text: string)
    requires |text| > 0 && !IsSpace(text[|text| - 1])
    ensures var line := "$ " + text; TrimSpace(line) == line && HasPrefix(line, "$ ") && line[2..] == text
  {
    var line := "$ " + text;
    assert line[0] == '$' && line[|line| - 1] == text[|text| - 1];
    assert Trimmed(line);
  }

  /** One pass of the loop when the request line has a space and the body
      line is read without error: expand the URL, then read on. */
  lemma ReadRequestStep(line: string, rest: seq<string>, base64body: bool, decode: string -> Option<seq<byte>>,
                        expand: Expander, pos: nat)
    requires |SplitAfterN2(line, ' ')| == 2 && ReadBody(rest, base64body, decode).Ok?
    ensures var parts := SplitAfterN2(line, ' ');
      var b := ReadBody(rest, base64body, decode).value;
      ReadRequest(line, rest, base64body, decode, expand, pos)
        == (var urls :- expand(TrimSpace(parts[1]), pos);
            var tail :- ReadFrom(b.rest, b.pushback, base64body, decode, expand, urls.1);
            Ok((Requests(TrimSpace(parts[0]), urls.0, b.body) + tail.0, tail.1)))
  {
  }

  /** The first request line of the input is handled by `ReadRequest`. */
  lemma ReadFirstLine(line: string, R: seq<string>, base64body: bool, decode: string -> Option<seq<byte>>,
                      expand: Expander, pos: nat)
    requires TrimSpace(line) == line != ""
    ensures ReadFrom([line] + R, "", base64body, decode, expand, pos) == ReadRequest(line, R, base64body, decode, expand, pos)
  {
    assert ([line] + R)[1..] == R;
  }

  /** Reading a rendered entry without a body line: the next line is pushed
      back and read as the following request. */
  lemma ReadEntryNoBody(e: Entry, R: seq<string>, base64body: bool, decode: string -> Option<seq<byte>>,
                        expand: Expander, pos: nat)
    requires WellFormed(e) && e.bodyLine.NoBody? && StartsEntry(R)
    ensures ReadRequest(RequestText(e), R, base64body, decode, expand, pos)
         == (var urls :- expand(e.url, pos);
             var tail :- ReadFrom(R, "", base64body, decode, expand, urls.1);
             Ok((Requests(e.verb, urls.0, []) + tail.0, tail.1)))
  {
    RequestLine(e);
    if |R| > 0 {
      assert ReadBody(R, base64body, decode) == Ok(BodyRead([], R[1..], R[0]));
      forall p: nat
        ensures ReadFrom(R[1..], R[0], base64body, decode, expand, p) == ReadFrom(R, "", base64body, decode, expand, p)
      {
        PushbackSame(R, base64body, decode, expand, p);
      }
    } else {
      assert ReadBody(R, base64body, decode) == Ok(BodyRead([], [], ""));
    }
  }

  /** Reading a rendered entry with a body line and the blank line after it. */
  lemma ReadEntryWithBody(e: Entry, R: seq<string>, base64body: bool, decode: string -> Option<seq<byte>>,
                          expand: Expander, pos: nat)
    requires WellFormed(e) && !e.bodyLine.NoBody? && EntryBody(e.bodyLine, base64body, decode).Some?
    ensures ReadRequest(RequestText(e), BodyLines(e.bodyLine) + R, base64body, decode, expand, pos)
         == (var urls :- expand(e.url, pos);
             var tail :- ReadFrom(R, "", base64body, decode, expand, urls.1);
             Ok((Requests(e.verb, urls.0, EntryBody(e.bodyLine, base64body, decode).value) + tail.0, tail.1)))
  {
    RequestLine(e);
    ReadBodyLine(e, R, base64body, decode);
    forall p: nat
      ensures ReadFrom([""] + R, "", base64body, decode, expand, p) == ReadFrom(R, "", base64body, decode, expand, p)
    {
      SkipBlank("", R, base64body, decode, expand, p);
    }
  }

  /** Reading a file of well-formed entries gives back the corpus they stand
      for: every entry's URLs in order, each with the entry's method and body,
      whichever of the three body-line forms the entry uses. */
  lemma {:induction false} ReadRender(es: seq<Entry>, base64body: bool, decode: string -> Option<seq<byte>>,
                                      expand: Expander, pos: nat)
    requires forall k :: 0 <= k < |es| ==> WellFormed(es[k]) && EntryBody(es[k].bodyLine, base64body, decode).Some?
    ensures ReadFrom(Render(es), "", base64body, decode, expand, pos) == ExpandEntries(es, base64body, decode, expand, pos)
    decreases |es|
  {
    if |es| > 0 {
      var e := es[0];
      var R := Render(es[1..]);
      var req := RequestText(e);
      RenderStartsEntry(es[1..]);
      RequestLine(e);
      ReadFirstLine(req, BodyLines(e.bodyLine) + R, base64body, decode, expand, pos);
      if e.bodyLine.NoBody? {
        assert BodyLines(e.bodyLine) + R == R;
        ReadEntryNoBody(e, R, base64body, decode, expand, pos);
      } else {
        ReadEntryWithBody(e, R, base64body, decode, expand, pos);
      }
      match expand(e.url, pos)
      case Fail(_) =>
      case Ok(urls) =>
        ReadRender(es[1..], base64body, decode, expand, urls.1);
    }
  }

  /** The round trip with the program's own URL expansion. */
  lemma ReadTargetsRender(es: seq<Entry>, base64body: bool, decode: string -> Option<seq<byte>>,
                          draw: nat -> nat, pos: nat)
    requires forall k :: 0 <= k < |es| ==> WellFormed(es[k]) && EntryBody(es[k].bodyLine, base64body, decode).Some?
    ensures ReadTargets(Render(es), base64body, decode, draw, pos)
         == ExpandEntries(es, base64body, decode, UrlExpander(draw), pos)
  {
    ReadRender(es, base64body, decode, UrlExpander(draw), pos);
  }

  /** A non-blank line without a space stops the reader with Go's index panic. */
  lemma NoSpacePanics(line: string, R: seq<string>, base64body: bool, decode: string -> Option<seq<byte>>,
                      expand: Expander, pos: nat)
    requires TrimSpace(line) != "" && ' ' !in TrimSpace(line)
    ensures ReadFrom([line] + R, "", base64body, decode, expand, pos) == Fail(Panic(IndexOutOfRange))
  {
    assert ([line] + R)[0] == line;
  }

  /** `$ ` alone is trimmed to `$`, which is not a body line. */
  lemma BareDollar()
    ensures TrimSpace("$ ") == "$" && !HasPrefix("$", "$ ")
  {
    assert TrimLeft("$ ") == "$ ";
    assert "$ "[..1] == "$";
    assert TrimRight("$ ") == TrimRight("$");
  }

  /** A last line that trims to `$` gives no body and is pushed back as `$`. */
  lemma BareDollarBody(line: string, base64body: bool, decode: string -> Option<seq<byte>>)
    requires TrimSpace(line) == "$"
    ensures ReadBody([line], base64body, decode) == Ok(BodyRead([], [], "$"))
  {
    assert [line][1..] == [];
    assert |"$"| < 2;
  }

  /** A `$ ` line with nothing after it is trimmed to `$`, which is not a
      body line; it is pushed back and, having no space, panics as a request
      line once the entry before it has been expanded. */
  lemma EmptyBodyLinePanics(e: Entry, base64body: bool, decode: string -> Option<seq<byte>>,
                            expand: Expander, pos: nat)
    requires WellFormed(e) && expand(e.url, pos).Ok?
    ensures ReadFrom([RequestText(e)] + ["$ "], "", base64body, decode, expand, pos) == Fail(Panic(IndexOutOfRange))
  {
    var req := RequestText(e);
    RequestLine(e);
    ReadFirstLine(req, ["$ "], base64body, decode, expand, pos);
    BareDollar();
    BareDollarBody("$ ", base64body, decode);
    ReadRequestStep(req, ["$ "], base64body, decode, expand, pos);
    PushedDollarPanics(base64body, decode, expand, expand(e.url, pos).value.1);
  }

  /** `$` pushed back as a request line has no space. */
  lemma PushedDollarPanics(base64body: bool, decode: string -> Option<seq<byte>>, expand: Expander, pos: nat)
    ensures ReadFrom([], "$", base64body, decode, expand, pos) == Fail(Panic(IndexOutOfRange))
  {
    assert SplitAfterN2("$", ' ') == ["$"];
  }

  /** A body the base64 decoder rejects stops the reader with its error. */
  lemma BadBase64Fails(e: Entry, text: string, decode: string -> Option<seq<byte>>, expand: Expander, pos: nat)
    requires WellFormed(e) && e.bodyLine == Dollar(text) && decode(text).None?
    ensures ReadFrom([RequestText(e)] + BodyLines(e.bodyLine), "", true, decode, expand, pos) == Fail(BodyNotBase64)
  {
    var req := RequestText(e);
    assert TrimSpace(req) == req != "" && |SplitAfterN2(req, ' ')| == 2 by {
      RequestLine(e);
    }
    assert BodyLines(e.bodyLine) == ["$ " + text, ""];
    BadBodyStops(req, text, decode, expand, pos);
  }

  /** A request line followed by a body line whose body the decoder rejects. */
  lemma BadBodyStops(req: string, text: string, decode: string -> Option<seq<byte>>, expand: Expander, pos: nat)
    requires TrimSpace(req) == req != "" && |SplitAfterN2(req, ' ')| == 2
    requires |text| > 0 && !IsSpace(text[|text| - 1]) && decode(text).None?
    ensures ReadFrom([req] + ["$ " + text, ""], "", true, decode, expand, pos) == Fail(BodyNotBase64)
  {
    RejectedBody(text, decode);
    ReadFirstLine(req, ["$ " + text, ""], true, decode, expand, pos);
    ReadRequestBodyFails(req, ["$ " + text, ""], true, decode, expand, pos);
  }

  /** The body line `$ text` with a body the decoder rejects. */
  lemma RejectedBody(text: string, decode: string -> Option<seq<byte>>)
    requires |text| > 0 && !IsSpace(text[|text| - 1]) && decode(text).None?
    ensures ReadBody(["$ " + text, ""], true, decode) == Fail(BodyNotBase64)
  {
    DollarLine(text);
  }

  /** A request line whose body line fails stops the reader with that fault. */
  lemma ReadRequestBodyFails(line: string, rest: seq<string>, base64body: bool,
                             decode: string -> Option<seq<byte>>, expand: Expander, pos: nat)
    requires |SplitAfterN2(line, ' ')| == 2 && ReadBody(rest, base64body, decode).Fail?
    ensures ReadRequest(line, rest, base64body, decode, expand, pos) == Fail(ReadBody(rest, base64body, decode).fault)
  {
  }

  // ---------------------------------------------------------------------
  // nextRequest

  /** The round-robin state: the shared cursor and the corpus. */
  datatype Targeter = Targeter(idx: nat, requests: seq<Request>)

  /** `nextRequest`: fails on an empty corpus (leaving the cursor alone);
      otherwise advances the cursor first and picks the request at the new
      cursor modulo the corpus size. */
  function NextRequest(t: Targeter): (r: Result<(Targeter, Request)>)
    ensures r.Fail? <==> |t.requests| == 0
    ensures r.Fail? ==> r.fault == NoRequests
    ensures r.Ok? ==> r.value.0.requests == t.requests && r.value.1 in t.requests
    ensures r.Ok? ==> r.value.0.idx == t.idx + 1 && r.value.1 == t.requests[r.value.0.idx % |t.requests|]
  {
    if |t.requests| == 0 then Fail(NoRequests)
    else
      var idx := t.idx + 1;
      Ok((Targeter(idx, t.requests), t.requests[idx % |t.requests|]))
  }

  /** The requests `k` successive calls of `nextRequest` return. */
  function Picks(t: Targeter, k: nat): (ps: seq<Request>)
    requires |t.requests| > 0
    ensures |ps| == k
    decreases k
  {
    if k == 0 then []
    else
      var (next, req) := NextRequest(t).value;
      [req] + Picks(next, k - 1)
  }

  /** Call j (counting from 0) returns the request at cursor idx + 1 + j. */
  lemma {:induction false} PickAt(t: Targeter, k: nat, j: nat)
    requires |t.requests| > 0 && j < k
    ensures Picks(t, k)[j] == t.requests[(t.idx + 1 + j) % |t.requests|]
    decreases k
  {
    var next := Targeter(t.idx + 1, t.requests);
    assert Picks(t, k) == [t.requests[(t.idx + 1) % |t.requests|]] + Picks(next, k - 1);
    if j > 0 {
      PickAt(next, k - 1, j - 1);
    }
  }

  /** The first call on a fresh targeter picks index 1, not 0. */
  lemma FirstPick(requests: seq<Request>)
    requires |requests| > 0
    ensures NextRequest(Targeter(0, requests)).value.1 == requests[1 % |requests|]
    ensures |requests| > 1 ==> NextRequest(Targeter(0, requests)).value.1 == requests[1]
  {
  }

  /** Position `a + j` of a corpus, taken modulo its size, is position `j` of
      the corpus rotated to start at `a` modulo its size. */
  lemma RotatedAt<T>(xs: seq<T>, a: nat, j: nat)
    requires 0 <= j < |xs|
    ensures var s := a % |xs|; xs[(a + j) % |xs|] == (xs[s..] + xs[..s])[j]
  {
    var n := |xs|;
    var s := a % n;
    RotateIndex(a, n, j);
    if j < n - s {
      assert (xs[s..] + xs[..s])[j] == xs[s + j];
    } else {
      assert (xs[s..] + xs[..s])[j] == xs[j - (n - s)];
    }
  }

  /** Call j of n successive calls returns position j of the corpus rotated
      to start at the next cursor position. */
  lemma PickRotated(t: Targeter, j: nat)
    requires 0 <= j < |t.requests|
    ensures var n := |t.requests|; var s := (t.idx + 1) % n;
      Picks(t, n)[j] == (t.requests[s..] + t.requests[..s])[j]
  {
    calc {
      Picks(t, |t.requests|)[j];
    == { PickAt(t, |t.requests|, j); }
      t.requests[(t.idx + 1 + j) % |t.requests|];
    == { RotatedAt(t.requests, t.idx + 1, j); }
      (t.requests[(t.idx + 1) % |t.requests|..] + t.requests[..(t.idx + 1) % |t.requests|])[j];
    }
  }

  /** A rotation holds every element as often as the original. */
  lemma RotationPermutes<T>(xs: seq<T>, s: nat)
    requires s <= |xs|
    ensures multiset(xs[s..] + xs[..s]) == multiset(xs)
  {
    assert xs == xs[..s] + xs[s..];
  }

  /** Any n successive calls, n the corpus size, return the corpus rotated
      to start at the next cursor position: every request exactly once. */
  lemma PicksRotate(t: Targeter)
    requires |t.requests| > 0
    ensures var n := |t.requests|; var s := (t.idx + 1) % n;
      Picks(t, n) == t.requests[s..] + t.requests[..s]
    ensures multiset(Picks(t, |t.requests|)) == multiset(t.requests)
  {
    forall j | 0 <= j < |t.requests|
      ensures Picks(t, |t.requests|)[j]
           == (t.requests[(t.idx + 1) % |t.requests|..] + t.requests[..(t.idx + 1) % |t.requests|])[j]
    {
      PickRotated(t, j);
    }
    RotationPermutes(t.requests, (t.idx + 1) % |t.requests|);
  }
}
