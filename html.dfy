/*
 * The page builder of http_ui.c: a static 4096-byte buffer that the page
 * functions append formatted text to, and that end_page sends as the body
 * of a 200 response. The text a format produces is taken as given; the
 * widget markup itself is not modelled.
 */
module Html {
  import opened Bytes
  import opened Transport
  import Response

  /** sizeof(html_buffer). */
  const HTML_SIZE: nat := 4096
  /** The most text the buffer keeps: one byte stays for the NUL. */
  const HTML_CAP: nat := HTML_SIZE - 1

  const STYLE_OPEN: bytes := "<style>"
  const STYLE_FONT: bytes := "body{font-family:Arial,Helvetica,"
  const STYLE_MARGIN: bytes := "sans-serif;margin:20px;}"
  const STYLE_BUTTON: bytes := "button{padding:10px;margin:5px;}"
  const STYLE_INPUT: bytes := "input,select{padding:5px;margin:5px;}"
  const STYLE_LABEL: bytes := "label{display:inline-block;width:100px;}"
  const STYLE_CLOSE: bytes := "</style>"
  /** The style sheet begin_page writes. */
  const STYLE: bytes := STYLE_OPEN + STYLE_FONT + STYLE_MARGIN + STYLE_BUTTON + STYLE_INPUT + STYLE_LABEL + STYLE_CLOSE

  const TITLE_OPEN: bytes := "<html><head><title>"
  const TITLE_CLOSE: bytes := "</title>"
  const HEAD_CLOSE: bytes := "</head><body>"
  const H2_OPEN: bytes := "<h2>"
  const H2_CLOSE: bytes := "</h2>"
  const END_PAGE: bytes := "</body></html>"

  const OK: bytes := "OK"
  const TEXT_HTML: bytes := "text/html"

  /** What http_ui_begin_page appends: the head with the title, the style sheet, and the title as a heading. */
  function PageStart(title: bytes): bytes {
    TitleTag(CStr(title)) + STYLE + HEAD_CLOSE + Heading(CStr(title))
  }

  /** "<html><head><title>%s</title>" */
  function TitleTag(t: bytes): bytes {
    TITLE_OPEN + t + TITLE_CLOSE
  }

  /** "<h2>%s</h2>" */
  function Heading(t: bytes): bytes {
    H2_OPEN + t + H2_CLOSE
  }

  /** Cutting twice is cutting once: a cut text that is added to and cut again is the whole text cut. */
  lemma TruncTwice(a: bytes, b: bytes, n: nat)
    ensures Trunc(Trunc(a, n) + b, n) == Trunc(a + b, n)
  {
    if |a| > n {
      assert (a[..n] + b)[..n] == (a + b)[..n];
    }
  }

  /** What vsnprintf leaves behind a kept text x with room for n bytes: x, then as much of b as fits. */
  lemma TruncKept(x: bytes, b: bytes, n: nat, k: nat)
    requires |x| <= n && k == (if |b| <= n - |x| then |b| else n - |x|)
    ensures Trunc(x + b, n) == x + b[..k]
  {
    if |x + b| > n {
      assert (x + b)[..n] == x + b[..k];
    } else {
      assert b[..k] == b;
    }
  }

  /** Once the page has filled the buffer, nothing appended after it shows, not even the closing tags. */
  lemma FullPageKeeps(a: bytes, b: bytes)
    requires |a| >= HTML_CAP
    ensures Trunc(a + b, HTML_CAP) == Trunc(a, HTML_CAP)
  {
    assert (a + b)[..HTML_CAP] == a[..HTML_CAP];
  }

  /** A short title leaves the start of the page whole. */
  lemma PageStartFits(title: bytes)
    requires |title| <= 1500
    ensures |PageStart(title)| <= HTML_CAP
    ensures Trunc(PageStart(title), HTML_CAP) == PageStart(title)
  {
    assert |STYLE| < 250;
  }

  /** html_buffer, html_len and current_hs. */
  class HtmlPage {
    const buffer: array<byte>
    var len: nat
    var current: Connection?
    /** Everything appended since the page was begun. */
    ghost var appended: bytes

    /** html_len stays below 4096, and the buffer holds what was appended, cut to 4095 bytes, then a NUL. */
    ghost predicate Valid()
      reads this, buffer
    {
      && buffer.Length == HTML_SIZE && len < HTML_SIZE
      && buffer[..len] == Trunc(appended, HTML_CAP) && buffer[len] == NUL
    }

    /** The page text: the first html_len bytes of the buffer. */
    function Text(): (t: bytes)
      reads this, buffer
      requires Valid()
      ensures t == Trunc(appended, HTML_CAP)
    {
      buffer[..len]
    }

    /** The static state before any page: a zeroed buffer, html_len 0 and no connection. */
    constructor ()
      ensures Valid() && appended == [] && current == null
    {
      buffer := new byte[HTML_SIZE](_ => NUL);
      len := 0;
      current := null;
      appended := [];
    }

    /**
     * html_add with the formatted text: vsnprintf writes what fits in the
     * room left (one byte stays for the NUL) and returns the whole length,
     * html_len grows by that length and is then pulled back to 4095. The
     * guard against html_len >= 4096 at entry never fires, since Valid
     * keeps html_len below 4096.
     */
    method Add(text: bytes)
      requires Valid()
      modifies this, buffer
      ensures Valid() && appended == old(appended) + text && current == old(current)
      ensures Text() == Trunc(old(Text()) + text, HTML_CAP)
    {
      var k := if |text| <= HTML_CAP - len then |text| else HTML_CAP - len;
      ghost var kept := buffer[..len];
      forall j | 0 <= j < k {
        buffer[len + j] := text[j];
      }
      buffer[len + k] := NUL;
      assert buffer[..len + k] == kept + text[..k];
      var written := |text|;
      if written > 0 {
        len := len + written;
      }
      if len >= HTML_SIZE {
        len := HTML_SIZE - 1;
      }
      assert len == old(len) + k;
      appended := appended + text;
      TruncKept(kept, text, HTML_CAP, k);
      TruncTwice(old(appended), text, HTML_CAP);
    }

    /** http_ui_begin_page: remember the connection, clear the buffer and write the start of the page. */
    method BeginPage(hs: Connection?, title: bytes)
      requires Valid()
      modifies this, buffer
      ensures Valid() && current == hs && appended == PageStart(title)
      ensures Text() == Trunc(PageStart(title), HTML_CAP)
    {
      current := hs;
      len := 0;
      forall i | 0 <= i < buffer.Length {
        buffer[i] := NUL;
      }
      appended := [];
      var t := CStr(title);
      Add(TitleTag(t));
      assert appended == TitleTag(t);
      Add(STYLE);
      Add(HEAD_CLOSE);
      Add(Heading(t));
    }

    /**
     * http_ui_end_page: close the page and send it as a 200 "OK" text/html
     * response on the connection begin_page remembered. Without one,
     * http_srv_send_response refuses and nothing is sent; its result is
     * dropped either way.
     */
    method EndPage()
      requires Valid()
      modifies this, buffer, current
      ensures Valid() && appended == old(appended) + END_PAGE && current == old(current)
      ensures Text() == Trunc(old(appended) + END_PAGE, HTML_CAP)
      ensures current != null ==>
        var r := Response.Respond(old(current.sendQuota), PageHead(|Text()|), Text());
        current.wire == old(current.wire) + r.1 && current.sendQuota == r.2
    ensures current != null ==>
      current.inbound == old(current.inbound) && current.received == old(current.received)
      && current.closes == old(current.closes)
    {
      Add(END_PAGE);
      if current != null {
        var page := buffer[..len];
        assert Response.PayloadFor(Some(page), len) == page;
        var ok := Response.SendResponse(current, 200, Some(OK), Some(TEXT_HTML), Some(page), len, Some([]));
      }
    }
  }

  /** The head end_page sends for a page of n bytes. */
  function PageHead(n: nat): bytes {
    Response.HeadFor(200, Some(OK), Some(TEXT_HTML), n, Some([]))
  }
}
