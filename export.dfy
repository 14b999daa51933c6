/**
 * The three exporters (`copyToClipboard`, `exportAsTxt`, `exportAsMarkdown`):
 * each renders every selected record as one block, joins the blocks with a
 * fixed separator and hands the text to the clipboard or to a file download,
 * unless the selection is empty, in which case it only shows a notice.
 */
module Export {
  import opened Wrappers
  import opened Text
  import opened Selection

  /** Separator between clipboard blocks. */
  const ClipboardSeparator := "\n\n"
  /** Separator between blocks in both exported files. */
  const FileSeparator := "\n\n---\n\n"

  const TxtFileName := "claude-conversation.txt"
  const TxtMimeType := "text/plain"
  const MarkdownFileName := "claude-conversation.md"
  const MarkdownMimeType := "text/markdown"

  /** The alert shown when an export is attempted with nothing selected. */
  const SelectFirstNotice := "请先选择要导出的消息 | Please select messages to export"

  /** The single browser side effect an export button click triggers. */
  datatype Effect =
    | Alert(notice: string)
    | WriteClipboard(text: string)
    | DownloadFile(content: string, filename: string, mimeType: string)

  // ---------------------------------------------------------------------------
  // Blocks
  // ---------------------------------------------------------------------------

  /** `${msg.role}: ${msg.content}` */
  function ClipboardBlock(m: Message): string
  {
    m.role + ": " + m.content
  }

  /** `${msg.role}:\n${msg.content}` */
  function TxtBlock(m: Message): string
  {
    m.role + ":\n" + m.content
  }

  /** `### ${msg.role}\n\n${msg.content}` */
  function MarkdownBlock(m: Message): string
  {
    "### " + m.role + "\n\n" + m.content
  }

  function ClipboardBlocks(ms: seq<Message>): seq<string>
  {
    seq(|ms|, i requires 0 <= i < |ms| => ClipboardBlock(ms[i]))
  }

  function TxtBlocks(ms: seq<Message>): seq<string>
  {
    seq(|ms|, i requires 0 <= i < |ms| => TxtBlock(ms[i]))
  }

  function MarkdownBlocks(ms: seq<Message>): seq<string>
  {
    seq(|ms|, i requires 0 <= i < |ms| => MarkdownBlock(ms[i]))
  }

  // ---------------------------------------------------------------------------
  // Whole texts
  // ---------------------------------------------------------------------------

  /** Empty exactly for an empty selection; otherwise it starts with the first message's block. */
  function ClipboardText(ms: seq<Message>): (r: string)
    ensures r == "" <==> ms == []
    ensures ms != [] ==> ClipboardBlock(ms[0]) <= r
  {
    var bs := ClipboardBlocks(ms);
    assert ms != [] ==> bs[0] == ClipboardBlock(ms[0]) && |bs[0]| > 0;
    Join(bs, ClipboardSeparator)
  }

  /** Empty exactly for an empty selection; otherwise it starts with the first message's block. */
  function TxtText(ms: seq<Message>): (r: string)
    ensures r == "" <==> ms == []
    ensures ms != [] ==> TxtBlock(ms[0]) <= r
  {
    var bs := TxtBlocks(ms);
    assert ms != [] ==> bs[0] == TxtBlock(ms[0]) && |bs[0]| > 0;
    Join(bs, FileSeparator)
  }

  /** Empty exactly for an empty selection; otherwise it starts with the first message's block. */
  function MarkdownText(ms: seq<Message>): (r: string)
    ensures r == "" <==> ms == []
    ensures ms != [] ==> MarkdownBlock(ms[0]) <= r
  {
    var bs := MarkdownBlocks(ms);
    assert ms != [] ==> bs[0] == MarkdownBlock(ms[0]) && |bs[0]| > 0;
    Join(bs, FileSeparator)
  }

  // ---------------------------------------------------------------------------
  // The button handlers
  // ---------------------------------------------------------------------------

  /** `copyToClipboard()`: the notice and nothing else on an empty selection, otherwise one clipboard write of the clipboard text. */
  function CopyToClipboard(ms: seq<Message>): (e: Effect)
    ensures e.Alert? <==> ms == []
    ensures e.Alert? ==> e.notice == SelectFirstNotice
    ensures !e.DownloadFile?
    ensures e.WriteClipboard? ==> e.text == ClipboardText(ms)
  {
    if |ms| == 0 then Alert(SelectFirstNotice) else WriteClipboard(ClipboardText(ms))
  }

  /** `exportAsTxt()`: the notice on an empty selection, otherwise one download of `claude-conversation.txt` as `text/plain`. */
  function ExportAsTxt(ms: seq<Message>): (e: Effect)
    ensures e.Alert? <==> ms == []
    ensures e.Alert? ==> e.notice == SelectFirstNotice
    ensures !e.WriteClipboard?
    ensures e.DownloadFile? ==> e == DownloadFile(TxtText(ms), TxtFileName, TxtMimeType)
  {
    if |ms| == 0 then Alert(SelectFirstNotice) else DownloadFile(TxtText(ms), TxtFileName, TxtMimeType)
  }

  /** `exportAsMarkdown()`: the notice on an empty selection, otherwise one download of `claude-conversation.md` as `text/markdown`. */
  function ExportAsMarkdown(ms: seq<Message>): (e: Effect)
    ensures e.Alert? <==> ms == []
    ensures e.Alert? ==> e.notice == SelectFirstNotice
    ensures !e.WriteClipboard?
    ensures e.DownloadFile? ==> e == DownloadFile(MarkdownText(ms), MarkdownFileName, MarkdownMimeType)
  {
    if |ms| == 0 then Alert(SelectFirstNotice) else DownloadFile(MarkdownText(ms), MarkdownFileName, MarkdownMimeType)
  }

  // ---------------------------------------------------------------------------
  // Layout of the exported texts
  // ---------------------------------------------------------------------------

  /**
   * The clipboard text holds message `i` as `role: content` at its offset,
   * followed by a blank line unless it is the last message, with which the
   * text ends.
   */
  lemma ClipboardLayout(ms: seq<Message>, i: nat)
    requires i < |ms|
    ensures var bs, o := ClipboardBlocks(ms), Offset(ClipboardBlocks(ms), ClipboardSeparator, i);
      && o + |bs[i]| <= |ClipboardText(ms)|
      && ClipboardText(ms)[o..o + |bs[i]|] == ms[i].role + ": " + ms[i].content
      && (i + 1 < |ms| ==> o + |bs[i]| + 2 <= |ClipboardText(ms)| && ClipboardText(ms)[o + |bs[i]|..o + |bs[i]| + 2] == "\n\n")
      && (i + 1 == |ms| ==> o + |bs[i]| == |ClipboardText(ms)|)
  {
    var bs := ClipboardBlocks(ms);
    assert ClipboardText(ms) == Join(bs, ClipboardSeparator);
    JoinPartAt(bs, ClipboardSeparator, i);
    if i + 1 < |ms| {
      JoinSeparatorAfter(bs, ClipboardSeparator, i);
      OffsetStep(bs, ClipboardSeparator, i);
    }
  }

  /** The TXT file holds message `i` as `role:\ncontent` at its offset, with a `---` rule between neighbours and none at the end. */
  lemma TxtLayout(ms: seq<Message>, i: nat)
    requires i < |ms|
    ensures var bs, o := TxtBlocks(ms), Offset(TxtBlocks(ms), FileSeparator, i);
      && o + |bs[i]| <= |TxtText(ms)|
      && TxtText(ms)[o..o + |bs[i]|] == ms[i].role + ":\n" + ms[i].content
      && (i + 1 < |ms| ==> o + |bs[i]| + 7 <= |TxtText(ms)| && TxtText(ms)[o + |bs[i]|..o + |bs[i]| + 7] == "\n\n---\n\n")
      && (i + 1 == |ms| ==> o + |bs[i]| == |TxtText(ms)|)
  {
    var bs := TxtBlocks(ms);
    assert TxtText(ms) == Join(bs, FileSeparator);
    JoinPartAt(bs, FileSeparator, i);
    if i + 1 < |ms| {
      JoinSeparatorAfter(bs, FileSeparator, i);
      OffsetStep(bs, FileSeparator, i);
    }
  }

  /** The Markdown file holds message `i` as a `### role` heading and its content, with a `---` rule between neighbours and none at the end. */
  lemma MarkdownLayout(ms: seq<Message>, i: nat)
    requires i < |ms|
    ensures var bs, o := MarkdownBlocks(ms), Offset(MarkdownBlocks(ms), FileSeparator, i);
      && o + |bs[i]| <= |MarkdownText(ms)|
      && MarkdownText(ms)[o..o + |bs[i]|] == "### " + ms[i].role + "\n\n" + ms[i].content
      && (i + 1 < |ms| ==> o + |bs[i]| + 7 <= |MarkdownText(ms)| && MarkdownText(ms)[o + |bs[i]|..o + |bs[i]| + 7] == "\n\n---\n\n")
      && (i + 1 == |ms| ==> o + |bs[i]| == |MarkdownText(ms)|)
  {
    var bs := MarkdownBlocks(ms);
    assert MarkdownText(ms) == Join(bs, FileSeparator);
    JoinPartAt(bs, FileSeparator, i);
    if i + 1 < |ms| {
      JoinSeparatorAfter(bs, FileSeparator, i);
      OffsetStep(bs, FileSeparator, i);
    }
  }

  /** Exporting two non-empty selections one after the other is exporting each and separating them once. */
  lemma ExportsAppend(a: seq<Message>, b: seq<Message>)
    requires a != [] && b != []
    ensures ClipboardText(a + b) == ClipboardText(a) + ClipboardSeparator + ClipboardText(b)
    ensures TxtText(a + b) == TxtText(a) + FileSeparator + TxtText(b)
    ensures MarkdownText(a + b) == MarkdownText(a) + FileSeparator + MarkdownText(b)
  {
    assert ClipboardBlocks(a + b) == ClipboardBlocks(a) + ClipboardBlocks(b);
    assert TxtBlocks(a + b) == TxtBlocks(a) + TxtBlocks(b);
    assert MarkdownBlocks(a + b) == MarkdownBlocks(a) + MarkdownBlocks(b);
    JoinAppend(ClipboardBlocks(a), ClipboardBlocks(b), ClipboardSeparator);
    JoinAppend(TxtBlocks(a), TxtBlocks(b), FileSeparator);
    JoinAppend(MarkdownBlocks(a), MarkdownBlocks(b), FileSeparator);
  }

  /** Length of each export: the blocks plus one separator per pair of neighbours. */
  lemma ExportLengths(ms: seq<Message>)
    requires ms != []
    ensures |ClipboardText(ms)| == TotalLength(ClipboardBlocks(ms)) + (|ms| - 1) * |ClipboardSeparator|
    ensures |TxtText(ms)| == TotalLength(TxtBlocks(ms)) + (|ms| - 1) * |FileSeparator|
    ensures |MarkdownText(ms)| == TotalLength(MarkdownBlocks(ms)) + (|ms| - 1) * |FileSeparator|
  {
    JoinLength(ClipboardBlocks(ms), ClipboardSeparator);
    JoinLength(TxtBlocks(ms), FileSeparator);
    JoinLength(MarkdownBlocks(ms), FileSeparator);
  }

  /** The two-message conversation on the clipboard, with the raw role strings. */
  lemma ClipboardExample()
    ensures ClipboardText([Message("user", "Hi"), Message("assistant", "Hello")]) == "user: Hi\n\nassistant: Hello"
  {
    var ms := [Message("user", "Hi"), Message("assistant", "Hello")];
    var bs := ["user: Hi", "assistant: Hello"];
    assert ClipboardBlock(ms[0]) == bs[0] && ClipboardBlock(ms[1]) == bs[1];
    assert ClipboardBlocks(ms) == bs;
    assert Join(bs, ClipboardSeparator) == bs[0] + ClipboardSeparator + Join(bs[1..], ClipboardSeparator);
  }

  /** The two-message conversation as a TXT file. */
  lemma TxtExample()
    ensures TxtText([Message("user", "Hi"), Message("assistant", "Hello")]) == "user:\nHi\n\n---\n\nassistant:\nHello"
  {
    var ms := [Message("user", "Hi"), Message("assistant", "Hello")];
    var bs := ["user:\nHi", "assistant:\nHello"];
    assert TxtBlock(ms[0]) == bs[0] && TxtBlock(ms[1]) == bs[1];
    assert TxtBlocks(ms) == bs;
    assert Join(bs, FileSeparator) == bs[0] + FileSeparator + Join(bs[1..], FileSeparator);
  }

  /** The two-message conversation as a Markdown file. */
  lemma MarkdownExample()
    ensures MarkdownText([Message("user", "Hi"), Message("assistant", "Hello")]) == "### user\n\nHi\n\n---\n\n### assistant\n\nHello"
  {
    var ms := [Message("user", "Hi"), Message("assistant", "Hello")];
    var bs := ["### user\n\nHi", "### assistant\n\nHello"];
    assert MarkdownBlock(ms[0]) == bs[0];
    assert MarkdownBlock(ms[1]) == bs[1];
    assert MarkdownBlocks(ms) == bs;
    assert Join(bs, FileSeparator) == bs[0] + FileSeparator + Join(bs[1..], FileSeparator);
  }

  // ---------------------------------------------------------------------------
  // Reading a block back
  // ---------------------------------------------------------------------------

  /** Split a block at the first `:` when it is followed by `next`: the text before and the text after the two characters. */
  function SplitAtColon(b: string, next: char): Option<Message>
  {
    match IndexOf(b, ':')
    case None => None
    case Some(i) => if i + 1 < |b| && b[i + 1] == next then Some(Message(b[..i], b[i + 2..])) else None
  }

  /** Reads a clipboard block back into its record. */
  function ParseClipboardBlock(b: string): Option<Message>
  {
    SplitAtColon(b, ' ')
  }

  /** Reads a TXT block back into its record. */
  function ParseTxtBlock(b: string): Option<Message>
  {
    SplitAtColon(b, '\n')
  }

  /** Reads a Markdown block back into its record: the heading text up to the first newline, then the content after the blank line. */
  function ParseMarkdownBlock(b: string): Option<Message>
  {
    if |b| < 4 || b[..4] != "### " then None
    else
      var rest := b[4..];
      match IndexOf(rest, '\n')
      case None => None
      case Some(i) => if i + 1 < |rest| && rest[i + 1] == '\n' then Some(Message(rest[..i], rest[i + 2..])) else None
  }

  /** A clipboard block reads back to its record whenever the role has no colon. */
  lemma ClipboardBlockRoundTrip(m: Message)
    requires ':' !in m.role
    ensures ParseClipboardBlock(ClipboardBlock(m)) == Some(m)
  {
    var s := ClipboardBlock(m);
    assert s == m.role + [':'] + (" " + m.content);
    IndexOfAfterPrefix(m.role, ':', " " + m.content);
    assert s[..|m.role|] == m.role;
    assert s[|m.role| + 2..] == m.content;
  }

  /** Whatever reads back as a clipboard block is the block of the record it reads to. */
  lemma ClipboardBlockParseSound(b: string)
    ensures ParseClipboardBlock(b).Some? ==> ClipboardBlock(ParseClipboardBlock(b).value) == b
  {
    match IndexOf(b, ':')
    case None =>
    case Some(i) =>
      if i + 1 < |b| && b[i + 1] == ' ' {
        assert b == b[..i] + ": " + b[i + 2..];
      }
  }

  /** A TXT block reads back to its record whenever the role has no colon. */
  lemma TxtBlockRoundTrip(m: Message)
    requires ':' !in m.role
    ensures ParseTxtBlock(TxtBlock(m)) == Some(m)
  {
    var s := TxtBlock(m);
    assert s == m.role + [':'] + ("\n" + m.content);
    IndexOfAfterPrefix(m.role, ':', "\n" + m.content);
    assert s[..|m.role|] == m.role;
    assert s[|m.role| + 2..] == m.content;
  }

  /** Whatever reads back as a TXT block is the block of the record it reads to. */
  lemma TxtBlockParseSound(b: string)
    ensures ParseTxtBlock(b).Some? ==> TxtBlock(ParseTxtBlock(b).value) == b
  {
    match IndexOf(b, ':')
    case None =>
    case Some(i) =>
      if i + 1 < |b| && b[i + 1] == '\n' {
        assert b == b[..i] + ":\n" + b[i + 2..];
      }
  }

  /** A Markdown block reads back to its record whenever the role has no newline. */
  lemma MarkdownBlockRoundTrip(m: Message)
    requires '\n' !in m.role
    ensures ParseMarkdownBlock(MarkdownBlock(m)) == Some(m)
  {
    var s := MarkdownBlock(m);
    var rest := m.role + ['\n'] + ("\n" + m.content);
    assert s == "### " + rest;
    assert s[..4] == "### " && s[4..] == rest;
    IndexOfAfterPrefix(m.role, '\n', "\n" + m.content);
    assert rest[..|m.role|] == m.role;
    assert rest[|m.role| + 2..] == m.content;
  }

  /** Whatever reads back as a Markdown block is the block of the record it reads to. */
  lemma MarkdownBlockParseSound(b: string)
    ensures ParseMarkdownBlock(b).Some? ==> MarkdownBlock(ParseMarkdownBlock(b).value) == b
  {
    if |b| >= 4 && b[..4] == "### " {
      var rest := b[4..];
      match IndexOf(rest, '\n')
      case None =>
      case Some(i) =>
        if i + 1 < |rest| && rest[i + 1] == '\n' {
          assert b == "### " + rest[..i] + "\n\n" + rest[i + 2..];
        }
    }
  }
}
