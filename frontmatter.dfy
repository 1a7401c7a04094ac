/**
 * The text of a note file: a YAML header between `---` fences, then the
 * body. YAML itself is a parameter: `decode` and `encode` stand for the YAML
 * library, each of which may fail.
 */
module FrontMatterCodec {
  import opened Wrappers
  import opened Text

  const Fence: string := "---"

  /** A parsed file, or the failure, which hands the whole content back as the body. */
  datatype Parse<H> = Parsed(header: H, body: string) | Failed(content: string)

  /**
   * `strings.SplitN(content, "---", 3)` on a content that starts with a fence:
   * the text between the first two fences and the text after the second, or
   * `None` when there is no second fence.
   */
  function SplitFences(content: string): (r: Option<(string, string)>)
    requires Fence <= content
    ensures r.Some? ==> content == Fence + r.value.0 + Fence + r.value.1 && !Contains(r.value.0, Fence)
    ensures r.None? ==> !Contains(content[3..], Fence)
  {
    var after := content[3..];
    match IndexOf(after, Fence)
    case None => None
    case Some(i) =>
      assert after == after[..i] + Fence + after[i + 3..];
      NothingBeforeFirst(after, Fence, i);
      Some((after[..i], after[i + 3..]))
  }

  /** Before its first occurrence, a string does not occur. */
  lemma NothingBeforeFirst(s: string, sub: string, i: nat)
    requires sub != [] && IndexOf(s, sub) == Some(i)
    ensures !Contains(s[..i], sub)
  {
    var pre := s[..i];
    forall j | 0 <= j <= |pre|
      ensures !OccursAt(pre, sub, j)
    {
      if OccursAt(pre, sub, j) {
        assert j + |sub| <= i;
        assert pre[j..j + |sub|] == s[j..j + |sub|];
        assert OccursAt(s, sub, j) && j < i;
      }
    }
  }

  function ParseFrontMatter<H>(content: string, decode: string -> Option<H>): (r: Parse<H>)
    ensures r.Failed? ==> r.content == content
    ensures !(Fence <= content) ==> r.Failed?
  {
    if !(Fence <= content) then Failed(content)
    else match SplitFences(content)
      case None => Failed(content)
      case Some((yaml, rest)) =>
        match decode(TrimSpace(yaml))
        case None => Failed(content)
        case Some(h) => Parsed(h, TrimSpace(rest))
  }

  /** The file text for a header and a body; when YAML encoding fails the body alone is written. */
  function UpdateFrontMatter<H>(h: H, body: string, encode: H -> Option<string>): string
  {
    match encode(h)
    case None => body
    case Some(yaml) => Fence + "\n" + yaml + Fence + "\n\n" + body
  }

  /** Parsing a file whose second fence comes right after `head`. */
  lemma ParseFenced<H>(head: string, tail: string, decode: string -> Option<H>)
    requires IndexOf(head + Fence + tail, Fence) == Some(|head|)
    ensures ParseFrontMatter(Fence + head + Fence + tail, decode) ==
      match decode(TrimSpace(head))
      case None => Failed(Fence + head + Fence + tail)
      case Some(h) => Parsed(h, TrimSpace(tail))
  {
    var content := Fence + head + Fence + tail;
    var after := head + Fence + tail;
    assert content == Fence + after;
    assert content[..3] == Fence;
    assert content[3..] == after;
    assert after[..|head|] == head;
    assert after[|head| + 3..] == tail;
    assert SplitFences(content) == Some((head, tail));
  }

  /** Leading white space does not survive trimming. */
  lemma TrimLeadingSpace(c: char, s: string)
    requires IsSpace(c)
    ensures TrimSpace([c] + s) == TrimSpace(s)
  {
    assert ([c] + s)[1..] == s;
  }

  /** The first fence after a head without any `-` is the one right after it. */
  lemma FirstFenceAfterDashFree(head: string, tail: string)
    requires forall k :: 0 <= k < |head| ==> head[k] != '-'
    ensures IndexOf(head + Fence + tail, Fence) == Some(|head|)
  {
    var s := head + Fence + tail;
    assert OccursAt(s, Fence, |head|);
    forall j | 0 <= j < |head|
      ensures !OccursAt(s, Fence, j)
    {
      assert s[j] == head[j];
    }
    match IndexOf(s, Fence) {
      case None =>
      case Some(k) =>
    }
  }

  /** The first fence after a line break and fence-free YAML ending in a line break is the one right after it. */
  lemma FirstFenceAfterYaml(yaml: string, tail: string)
    requires !Contains(yaml, Fence) && yaml != [] && yaml[|yaml| - 1] == '\n'
    ensures IndexOf(['\n'] + yaml + Fence + tail, Fence) == Some(|yaml| + 1)
  {
    var head := ['\n'] + yaml;
    var s := head + Fence + tail;
    assert OccursAt(s, Fence, |head|);
    forall j | 0 <= j < |head|
      ensures !OccursAt(s, Fence, j)
    {
      if j == 0 {
        assert s[0] == '\n';
      } else if j + 3 <= |head| {
        assert !OccursAt(yaml, Fence, j - 1);
        assert s[j..j + 3] == yaml[j - 1..j + 2];
      } else {
        assert s[|head| - 1] == '\n';
      }
    }
    match IndexOf(s, Fence) {
      case None =>
      case Some(k) =>
    }
  }

  /** The text of a written file, with the fences and line breaks spelled out. */
  lemma WrittenText<H>(h: H, body: string, yaml: string, encode: H -> Option<string>)
    requires encode(h) == Some(yaml)
    ensures UpdateFrontMatter(h, body, encode) == Fence + (['\n'] + yaml) + Fence + (['\n'] + (['\n'] + body))
  {
  }

  /** Reading back a written text. */
  lemma ParseWrittenText<H>(h: H, body: string, yaml: string, decode: string -> Option<H>)
    requires !Contains(yaml, Fence) && yaml != [] && yaml[|yaml| - 1] == '\n'
    requires decode(TrimSpace(yaml)) == Some(h)
    ensures ParseFrontMatter(Fence + (['\n'] + yaml) + Fence + (['\n'] + (['\n'] + body)), decode) == Parsed(h, TrimSpace(body))
  {
    var head := ['\n'] + yaml;
    var tail := ['\n'] + (['\n'] + body);
    FirstFenceAfterYaml(yaml, tail);
    ParseFenced(head, tail, decode);
    TrimLeadingSpace('\n', yaml);
    TrimLeadingSpace('\n', ['\n'] + body);
    TrimLeadingSpace('\n', body);
  }

  /**
   * Writing a header and parsing the file again gives the header back and the
   * body trimmed, provided the YAML text has no `---` in it, ends in a line
   * break (as the YAML library's output does) and decodes to the header.
   */
  lemma RoundTrip<H>(h: H, body: string, yaml: string, encode: H -> Option<string>, decode: string -> Option<H>)
    requires encode(h) == Some(yaml)
    requires !Contains(yaml, Fence) && yaml != [] && yaml[|yaml| - 1] == '\n'
    requires decode(TrimSpace(yaml)) == Some(h)
    ensures ParseFrontMatter(UpdateFrontMatter(h, body, encode), decode) == Parsed(h, TrimSpace(body))
  {
    WrittenText(h, body, yaml, encode);
    ParseWrittenText(h, body, yaml, decode);
  }

  /**
   * A header whose YAML text carries `---` (a title such as `a---b` is written
   * unquoted) is cut at that point when the file is read back: the header
   * decoder sees only the text before it, and the rest becomes part of the body.
   */
  lemma FenceInsideHeader<H>(h: H, body: string, encode: H -> Option<string>, decode: string -> Option<H>)
    requires encode(h) == Some("title: a---b\n")
    ensures ParseFrontMatter(UpdateFrontMatter(h, body, encode), decode) ==
      match decode("title: a")
      case None => Failed(UpdateFrontMatter(h, body, encode))
      case Some(g) => Parsed(g, TrimSpace("b\n---\n\n" + body))
  {
    CutHeaderText(h, body, encode);
    ParseDashFreeHeader("title: a", "b\n---\n\n" + body, decode);
    assert TrimSpace("title: a") == "title: a";
  }

  /** A file whose header text has no `-` in it splits at the second fence. */
  lemma ParseDashFreeHeader<H>(pre: string, tail: string, decode: string -> Option<H>)
    requires forall k :: 0 <= k < |pre| ==> pre[k] != '-'
    ensures ParseFrontMatter(Fence + (['\n'] + pre) + Fence + tail, decode) ==
      match decode(TrimSpace(pre))
      case None => Failed(Fence + (['\n'] + pre) + Fence + tail)
      case Some(g) => Parsed(g, TrimSpace(tail))
  {
    var head := ['\n'] + pre;
    FirstFenceAfterDashFree(head, tail);
    ParseFenced(head, tail, decode);
    TrimLeadingSpace('\n', pre);
  }

  /** The text written for the header `title: a---b`, with its first `---` as a fence. */
  lemma CutHeaderText<H>(h: H, body: string, encode: H -> Option<string>)
    requires encode(h) == Some("title: a---b\n")
    ensures UpdateFrontMatter(h, body, encode) == Fence + (['\n'] + "title: a") + Fence + ("b\n---\n\n" + body)
  {
    WrittenText(h, body, "title: a---b\n", encode);
  }
}
