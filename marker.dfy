/** The concatenation marker written in a pattern. The classifier calls `&` a
    literal, so the inserter puts a marker on each side of it; the converter
    and the builder then read all three as concatenation, and `x&y` is
    rejected for want of operands whatever the text. */
module Marker {
  import opened Syntax
  import opened Concat
  import opened Postfix
  import opened Thompson
  import opened Pipeline
  import opened Alternation

  /** The pattern `&` gets a marker before and after it. */
  lemma MarkerInsert(x: char, y: char)
    requires Plain(x) && Plain(y)
    ensures InsertConcat([x, '&', y]) == [x, '&', '&', '&', y]
  {
    assert [x, '&', y][..2] == [x, '&'] && [x, '&'][..1] == [x] && [x][..0] == [];
    assert InsertConcat([x]) == [x];
    assert InsertConcat([x, '&']) == [x, '&', '&'];
  }

  /** Each of the three `&` pops the one before it. */
  lemma MarkerScan(x: char, y: char)
    requires Plain(x) && Plain(y)
    ensures ScanFrom(Shunt([], []), [x, '&', '&', '&', y]) ==
      Ok([Char(x), Op('&'), Op('&'), Char(y), Op('&')])
  {
    MarkerScanHead(x, y);
    MarkerScanTail(x, y);
  }

  /** The letter and the first two markers. */
  lemma MarkerScanHead(x: char, y: char)
    requires Plain(x)
    ensures var q := [x, '&', '&', '&', y];
      ScanFrom(Shunt([], []), q) == ScanFrom(Shunt([Char(x), Op('&')], ['&']), q[3..])
  {
    var q := [x, '&', '&', '&', y];
    var s1 := Shunt([Char(x)], []);
    var s2 := Shunt([Char(x)], ['&']);
    assert [] + [Char(x)] == [Char(x)] && [] + ['&'] == ['&'];
    ScanAt(Shunt([], []), q, 0, s1);
    assert q[0..] == q;
    assert PopWhile(s1, '&') == s1;
    ScanAt(s1, q, 1, s2);
    MarkerPops([Char(x)]);
    assert [Char(x)] + [Op('&')] == [Char(x), Op('&')];
    ScanAt(s2, q, 2, Shunt([Char(x), Op('&')], ['&']));
  }

  /** The third marker, the second letter and the final loop. */
  lemma MarkerScanTail(x: char, y: char)
    requires Plain(y)
    ensures var q := [x, '&', '&', '&', y];
      ScanFrom(Shunt([Char(x), Op('&')], ['&']), q[3..]) == Ok([Char(x), Op('&'), Op('&'), Char(y), Op('&')])
  {
    var q := [x, '&', '&', '&', y];
    var s3 := Shunt([Char(x), Op('&')], ['&']);
    var s4 := Shunt([Char(x), Op('&'), Op('&')], ['&']);
    var s5 := Shunt([Char(x), Op('&'), Op('&'), Char(y)], ['&']);
    MarkerPops([Char(x), Op('&')]);
    assert [Char(x), Op('&')] + [Op('&')] == [Char(x), Op('&'), Op('&')];
    ScanAt(s3, q, 3, s4);
    assert [Char(x), Op('&'), Op('&')] + [Char(y)] == [Char(x), Op('&'), Op('&'), Char(y)];
    ScanAt(s4, q, 4, s5);
    ScanEnd(s5, q);
    DrainOne([Char(x), Op('&'), Op('&'), Char(y)], '&');
    assert [Char(x), Op('&'), Op('&'), Char(y)] + [Op('&')] == [Char(x), Op('&'), Op('&'), Char(y), Op('&')];
  }

  /** A marker meeting a pending marker pops it and takes its place. */
  lemma MarkerPops(out: seq<Token>)
    ensures ShuntStep(Shunt(out, ['&']), '&') == Ok(Shunt(out + [Op('&')], ['&']))
  {
    var popped := Shunt(out + [Op('&')], []);
    assert ['&'][..0] == [];
    assert PopWhile(popped, '&') == popped;
    assert [] + ['&'] == ['&'];
  }

  /** `x&y` converts to postfix with three concatenations. */
  lemma MarkerPostfix(x: char, y: char)
    requires Plain(x) && Plain(y)
    ensures ToPostfix([x, '&', y]) == Ok([Char(x), Op('&'), Op('&'), Char(y), Op('&')])
  {
    MarkerInsert(x, y);
    MarkerScan(x, y);
  }

  /** The first concatenation finds a single fragment. */
  lemma MarkerBuild(x: char, y: char)
    ensures Construct([Char(x), Op('&'), Op('&'), Char(y), Op('&')]) == Err(InsufficientOperands)
  {
    var toks := [Char(x), Op('&'), Op('&'), Char(y), Op('&')];
    var b1 := Builder([[Lit(x, 1)], []], [Fragment(0, [1])]);
    assert [] + [[Lit(x, 1)], []] == b1.arena && [] + [Fragment(0, [1])] == b1.stack;
    BuildAt(Builder([], []), toks, 0, b1);
    assert toks[0..] == toks;
    assert Apply(b1, toks[1]) == Err(InsufficientOperands);
  }

  /** A pattern `&` between two letters is rejected, whatever the text. */
  lemma MarkerRejected(x: char, y: char, text: string)
    requires Plain(x) && Plain(y)
    ensures MatchOutcome([x, '&', y], text) == Err(InsufficientOperands)
  {
    MarkerPostfix(x, y);
    MarkerBuild(x, y);
  }

  /** The pattern "a&b": the inserter marks it as four characters of
      concatenation around the two letters, and the engine rejects it. */
  lemma MarkerExample(text: string)
    ensures InsertConcat("a&b") == "a&&&b"
    ensures ToPostfix("a&b") == Ok([Char('a'), Op('&'), Op('&'), Char('b'), Op('&')])
    ensures MatchOutcome("a&b", text) == Err(InsufficientOperands)
  {
    assert "a&b" == ['a', '&', 'b'] && "a&&&b" == ['a', '&', '&', '&', 'b'];
    MarkerInsert('a', 'b');
    MarkerPostfix('a', 'b');
    MarkerRejected('a', 'b', text);
  }
}
