/** MarkupHelper.cs: the HTML envelope put around every converted page. */
module MarkupHelper {
  import opened Wrappers
  import opened Text

  const HeadLine: string := "<html><head></head><body>"
  const TailLine: string := "</article></body></html>"

  function StyleLine(css: string): string {
    "<style>" + css + "</style><article class=\"markdown-body\">"
  }

  /** ReadInStyle: the embedded style sheet, or "" when the resource is missing. */
  function ReadInStyle(resource: Option<string>): (css: string)
    ensures resource.None? ==> css == ""
    ensures resource.Some? ==> css == resource.value
  {
    resource.GetOr("")
  }

  /** The text WrapHtmlBody writes before the body. */
  function Prologue(resource: Option<string>): string {
    HeadLine + NewLine + StyleLine(ReadInStyle(resource)) + NewLine
  }

  /** The text WrapHtmlBody writes after the body. */
  const Epilogue: string := NewLine + TailLine + NewLine

  /**
    WrapHtmlBody: four lines, each ended by a newline: the html/head/body
    opening, the style sheet and article opening, the body text verbatim, and
    the closing tags.
  */
  function WrapHtmlBody(bodyText: string, resource: Option<string>): (r: string)
    ensures |r| == |Prologue(resource)| + |bodyText| + |Epilogue|
    ensures r[..|HeadLine + NewLine|] == HeadLine + NewLine
    ensures r[|HeadLine + NewLine|..|Prologue(resource)|] == StyleLine(ReadInStyle(resource)) + NewLine
    ensures r[|Prologue(resource)|..|r| - |Epilogue|] == bodyText
    ensures r[|r| - |Epilogue|..] == NewLine + TailLine + NewLine
  {
    var sb := HeadLine + NewLine;
    var sb := sb + StyleLine(ReadInStyle(resource)) + NewLine;
    var sb := sb + bodyText + NewLine;
    sb + TailLine + NewLine
  }

  /** Recovers the body of a wrapped page: the inverse of WrapHtmlBody for the same style. */
  function UnwrapHtmlBody(html: string, resource: Option<string>): (r: Option<string>)
    ensures r.Some? ==> WrapHtmlBody(r.value, resource) == html
  {
    var pre := Prologue(resource);
    if |html| >= |pre| + |Epilogue| && html[..|pre|] == pre && html[|html| - |Epilogue|..] == Epilogue
    then
      var body := html[|pre|..|html| - |Epilogue|];
      assert html == pre + body + Epilogue;
      Some(body)
    else None
  }

  lemma UnwrapWrap(bodyText: string, resource: Option<string>)
    ensures UnwrapHtmlBody(WrapHtmlBody(bodyText, resource), resource) == Some(bodyText)
  {
    var r := WrapHtmlBody(bodyText, resource);
    var pre := Prologue(resource);
    assert r[..|pre|] == r[..|HeadLine + NewLine|] + r[|HeadLine + NewLine|..|pre|];
  }
}
