/**
 * The redirect targets of the views: the question list and the question detail page, the latter
 * optionally followed by an `#answer_<id>` or `#comment_<id>` fragment. `Render` is the string the
 * views build with `resolve_url('pybo:detail', pk=...)` and `'{}#answer_{}'.format(...)`;
 * `Parse` reads such a string back, so a rendered target names exactly one page and one anchor.
 */
module Urls {
  import opened Base
  import opened Text

  /** The prefix under which the project mounts the app's URL patterns (`path('<int:pk>/', ...)`). */
  const Mount: string := "/pybo/"

  datatype Anchor = NoAnchor | AnswerAnchor(answer: nat) | CommentAnchor(comment: nat)

  datatype Url = IndexUrl | DetailUrl(question: nat, anchor: Anchor)

  /** `resolve_url('pybo:detail', pk=q)`. */
  function DetailPath(q: nat): string {
    Mount + NatToString(q) + "/"
  }

  function AnchorText(a: Anchor): string {
    match a
    case NoAnchor => ""
    case AnswerAnchor(id) => "#answer_" + NatToString(id)
    case CommentAnchor(id) => "#comment_" + NatToString(id)
  }

  function Render(u: Url): string {
    match u
    case IndexUrl => Mount
    case DetailUrl(q, a) => DetailPath(q) + AnchorText(a)
  }

  /** Splits off the longest leading run of digits. */
  function SplitDigits(s: string): (p: (string, string))
    ensures p.0 + p.1 == s && AllDigits(p.0)
    ensures p.1 == [] || !IsDigit(p.1[0])
  {
    if s == [] || !IsDigit(s[0]) then ([], s)
    else
      var rest := SplitDigits(s[1..]);
      ([s[0]] + rest.0, rest.1)
  }

  function ParseAnchor(s: string): Option<Anchor> {
    if s == [] then Some(NoAnchor)
    else if StartsWith(s, "#answer_") then
      match ParseNat(s[|"#answer_"|..])
      case Some(id) => Some(AnswerAnchor(id))
      case None => None
    else if StartsWith(s, "#comment_") then
      match ParseNat(s[|"#comment_"|..])
      case Some(id) => Some(CommentAnchor(id))
      case None => None
    else None
  }

  /** The part of a detail target after the mount prefix: `<digits>/` and an anchor. */
  function ParseDetail(r: string): Option<Url> {
    var (ds, rest) := SplitDigits(r);
    if ds == [] || rest == [] || rest[0] != '/' then None
    else
      match ParseAnchor(rest[1..])
      case Some(a) => Some(DetailUrl(DigitsValue(ds), a))
      case None => None
  }

  function Parse(s: string): Option<Url> {
    if !StartsWith(s, Mount) then None
    else if s[|Mount|..] == [] then Some(IndexUrl)
    else ParseDetail(s[|Mount|..])
  }

  /** A digit run followed by a non-digit (or nothing) splits exactly there. */
  lemma {:induction false} SplitDigitsAt(d: string, t: string)
    requires AllDigits(d) && (t == [] || !IsDigit(t[0]))
    ensures SplitDigits(d + t) == (d, t)
  {
    if d == [] {
      assert d + t == t;
    } else {
      assert (d + t)[1..] == d[1..] + t;
      SplitDigitsAt(d[1..], t);
      assert [d[0]] + d[1..] == d;
    }
  }

  lemma AnchorRoundTrip(a: Anchor)
    ensures ParseAnchor(AnchorText(a)) == Some(a)
  {
    match a
    case NoAnchor =>
    case AnswerAnchor(id) =>
      var s := AnchorText(a);
      assert s[|"#answer_"|..] == NatToString(id);
    case CommentAnchor(id) =>
      var s := AnchorText(a);
      assert s[1] == 'c';
      assert s[|"#comment_"|..] == NatToString(id);
  }

  /** A digit run, a slash and any text: the digits give the question, the text the anchor. */
  lemma ParseDetailParts(d: string, x: string)
    requires d != [] && AllDigits(d)
    ensures ParseDetail(d + "/" + x) == match ParseAnchor(x)
      case Some(a) => Some(DetailUrl(DigitsValue(d), a))
      case None => None
  {
    var t := "/" + x;
    assert d + "/" + x == d + t;
    SplitDigitsAt(d, t);
    assert t[1..] == x;
  }

  lemma ParseDetailOf(q: nat, a: Anchor)
    ensures ParseDetail(NatToString(q) + "/" + AnchorText(a)) == Some(DetailUrl(q, a))
  {
    ParseDetailParts(NatToString(q), AnchorText(a));
    AnchorRoundTrip(a);
  }

  /** Below the mount prefix, a non-empty rest is read as a detail target. */
  lemma ParseMounted(r: string)
    requires r != []
    ensures Parse(Mount + r) == ParseDetail(r)
  {
    var s := Mount + r;
    assert s[..|Mount|] == Mount;
    assert s[|Mount|..] == r;
  }

  /** After the mount prefix, a detail target is its digits, a slash and the anchor text. */
  lemma DetailRoundTrip(q: nat, a: Anchor)
    ensures Parse(Render(DetailUrl(q, a))) == Some(DetailUrl(q, a))
  {
    var r := NatToString(q) + "/" + AnchorText(a);
    assert Render(DetailUrl(q, a)) == Mount + r;
    ParseMounted(r);
    ParseDetailOf(q, a);
  }

  /** Reading a rendered redirect target gives back the same page and anchor. */
  lemma ParseRender(u: Url)
    ensures Parse(Render(u)) == Some(u)
  {
    match u
    case IndexUrl =>
      assert Render(u)[|Mount|..] == [];
    case DetailUrl(q, a) =>
      DetailRoundTrip(q, a);
  }

  /** Different targets render to different strings. */
  lemma RenderInjective(u: Url, v: Url)
    requires Render(u) == Render(v)
    ensures u == v
  {
    ParseRender(u);
    ParseRender(v);
  }
}
