/**
 Terminal styling as data. Text that the console consumer colours (with the
 `colored` crate, or with the JSON highlighter's escape codes) is a sequence of
 spans, each carrying its characters and a style; `Strip` forgets the styles and
 gives the characters the terminal would show.
 */
module Styling {
  import opened Text

  /** Foreground colours used by the consumer; `Theme` stands for the per-token colours of the JSON theme. */
  datatype Color = Default | Green | Blue | Yellow | Theme

  datatype Style = Style(color: Color, bold: bool, italic: bool, dimmed: bool)

  const Unstyled: Style := Style(Default, false, false, false)

  datatype Span = Span(text: string, style: Style)

  type Rich = seq<Span>

  /** The characters of `r` without any styling. */
  function Strip(r: Rich): string
  {
    if |r| == 0 then "" else r[0].text + Strip(r[1..])
  }

  function Plain(s: string): Rich
  {
    [Span(s, Unstyled)]
  }

  function Styled(s: string, style: Style): Rich
  {
    [Span(s, style)]
  }

  /** `rs` with `sep` between neighbours; the styled counterpart of `Join`. */
  function JoinRich(rs: seq<Rich>, sep: Rich): Rich
  {
    if |rs| == 0 then []
    else if |rs| == 1 then rs[0]
    else rs[0] + sep + JoinRich(rs[1..], sep)
  }

  /** Concatenation of all `rs`; the styled counterpart of `Concat`. */
  function ConcatRich(rs: seq<Rich>): Rich
  {
    if |rs| == 0 then [] else rs[0] + ConcatRich(rs[1..])
  }

  /** The stripped text of each element. */
  function StripEach(rs: seq<Rich>): (ss: seq<string>)
    ensures |ss| == |rs|
    ensures forall i :: 0 <= i < |rs| ==> ss[i] == Strip(rs[i])
  {
    seq(|rs|, i requires 0 <= i < |rs| => Strip(rs[i]))
  }

  lemma {:induction false} StripAppend(a: Rich, b: Rich)
    ensures Strip(a + b) == Strip(a) + Strip(b)
  {
    if |a| == 0 {
      assert a + b == b;
    } else {
      assert (a + b)[1..] == a[1..] + b;
      StripAppend(a[1..], b);
    }
  }

  lemma StripSingle(s: string, style: Style)
    ensures Strip([Span(s, style)]) == s
  {
  }

  /** Stripping commutes with joining. */
  lemma {:induction false} StripJoinRich(rs: seq<Rich>, sep: Rich)
    ensures Strip(JoinRich(rs, sep)) == Join(StripEach(rs), Strip(sep))
  {
    if |rs| > 1 {
      StripJoinRich(rs[1..], sep);
      assert StripEach(rs[1..]) == StripEach(rs)[1..];
      StripAppend(rs[0] + sep, JoinRich(rs[1..], sep));
      StripAppend(rs[0], sep);
    }
  }

  /** Stripping commutes with concatenation. */
  lemma {:induction false} StripConcatRich(rs: seq<Rich>)
    ensures Strip(ConcatRich(rs)) == Concat(StripEach(rs))
  {
    if |rs| > 0 {
      StripConcatRich(rs[1..]);
      assert StripEach(rs[1..]) == StripEach(rs)[1..];
      StripAppend(rs[0], ConcatRich(rs[1..]));
    }
  }
}
