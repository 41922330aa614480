/** Cell values, the result of a column's custom renderer, and the text
    matching that the free-text search performs. */
module Cells {
  import opened Wrappers

  /** A cell of the data set: the table is fed strings and integers. */
  datatype Cell = Str(s: string) | Num(n: int)

  type Row = seq<Cell>

  /** JavaScript truthiness of a cell value. */
  predicate Truthy(c: Cell)
  {
    match c
    case Str(s) => s != ""
    case Num(n) => n != 0
  }

  /** What a column's `customRender` returns: a string, a React element
      whose `props.value` may be set, or anything else. */
  datatype Rendered = Text(text: string) | Element(value: Option<Cell>) | Other

  /** `customRender(index, value)`: supplied by the user of the table and
      left uninterpreted. */
  type Renderer = (int, Cell) -> Rendered

  /** The value used for filtering and searching: a string result of the
      renderer, else the truthy `props.value` of an element, else the raw
      cell (src/DripTable.js:227-236 and 272-280; they differ only for a
      `null` result, which `isRowDisplayed` does not guard against and
      which is not a `Rendered` here). */
  function EffectiveValue(render: Option<Renderer>, arg: int, raw: Cell): (v: Cell)
    ensures render.None? ==> v == raw
    ensures v != raw ==>
      render.Some? && ((render.value(arg, raw) == Element(Some(v)) && Truthy(v)) ||
                       (v.Str? && render.value(arg, raw) == Text(v.s)))
    ensures render.Some? && render.value(arg, raw).Text? ==>
      v == Str(render.value(arg, raw).text)
    ensures render.Some? && render.value(arg, raw).Element? &&
            render.value(arg, raw).value.Some? && Truthy(render.value(arg, raw).value.value) ==>
      v == render.value(arg, raw).value.value
    ensures render.Some? && render.value(arg, raw).Element? &&
            (render.value(arg, raw).value.None? || !Truthy(render.value(arg, raw).value.value)) ==>
      v == raw
  {
    if render.None? then raw
    else
      match render.value(arg, raw)
      case Text(t) => Str(t)
      case Element(Some(v)) => if Truthy(v) then v else raw
      case _ => raw
  }

  /** A cell of `displayData`: the raw value, or what the renderer drew.
      A string drawn by the renderer is a plain string cell. */
  datatype Shown = Plain(cell: Cell) | Drawn(rendered: Rendered)

  function ShowCell(render: Option<Renderer>, rowIndex: int, raw: Cell): Shown
  {
    if render.None? then Plain(raw)
    else
      match render.value(rowIndex, raw)
      case Text(t) => Plain(Str(t))
      case r => Drawn(r)
  }

  /** A data row read as a row of `displayData`, for comparing the two. */
  function AsShown(row: Row): (r: seq<Shown>)
    ensures |r| == |row|
    ensures forall i :: 0 <= i < |row| ==> r[i] == Plain(row[i])
  {
    seq(|row|, i requires 0 <= i < |row| => Plain(row[i]))
  }

  function DigitChar(d: nat): char
    requires d < 10
  {
    "0123456789"[d]
  }

  /** Decimal text of a natural number, as `toString` writes it. */
  function NatText(n: nat): (s: string)
    ensures |s| >= 1
    decreases n
  {
    if n < 10 then [DigitChar(n)] else NatText(n / 10) + [DigitChar(n % 10)]
  }

  /** `value.toString()` */
  function CellText(c: Cell): string
  {
    match c
    case Str(s) => s
    case Num(n) => if n < 0 then "-" + NatText(-n) else NatText(n)
  }

  /** `toLowerCase`, on the ASCII letters. */
  function ToLower(s: string): (r: string)
    ensures |r| == |s|
  {
    seq(|s|, i requires 0 <= i < |s| => if 'A' <= s[i] <= 'Z' then (s[i] as int + 32) as char else s[i])
  }

  /** `s.indexOf(q) >= 0`: `q` occurs in `s` at some position. */
  predicate Contains(s: string, q: string)
    decreases |s|
  {
    q <= s || (s != [] && Contains(s[1..], q))
  }

  /** The search test of src/DripTable.js:287-289: the cell text is
      lower-cased unless the table is case-sensitive, while the query is
      lower-cased in every case. */
  predicate SearchHits(v: Cell, query: string, caseSensitive: bool)
  {
    var text := if caseSensitive then CellText(v) else ToLower(CellText(v));
    Contains(text, ToLower(query))
  }

  /** `q` occurs in `s` starting at position `i`. */
  predicate OccursAt(s: string, q: string, i: int)
  {
    0 <= i && i + |q| <= |s| && s[i..i + |q|] == q
  }

  /** `Contains` is `indexOf(q) >= 0`: `q` occurs in `s` at some position. */
  lemma ContainsIffOccurs(s: string, q: string)
    ensures Contains(s, q) <==> exists i :: OccursAt(s, q, i)
  {
    if Contains(s, q) {
      var i := ContainsWitness(s, q);
    }
    if exists i :: OccursAt(s, q, i) {
      var i :| OccursAt(s, q, i);
      OccursContains(s, q, i);
    }
  }

  lemma {:induction false} ContainsWitness(s: string, q: string) returns (i: nat)
    requires Contains(s, q)
    ensures OccursAt(s, q, i)
    decreases |s|
  {
    if q <= s {
      i := 0;
      assert s[0..|q|] == q;
    } else {
      var j := ContainsWitness(s[1..], q);
      i := j + 1;
      assert s[1..][j..j + |q|] == s[i..i + |q|];
    }
  }

  lemma {:induction false} OccursContains(s: string, q: string, i: int)
    requires OccursAt(s, q, i)
    ensures Contains(s, q)
    decreases i
  {
    if i == 0 {
      assert q == s[..|q|];
    } else {
      assert s[1..][i - 1..i - 1 + |q|] == s[i..i + |q|];
      OccursContains(s[1..], q, i - 1);
    }
  }

  /** The search is case-insensitive only on the cell's side: with
      `caseSensitive` an upper-case query never matches, since the query
      is lower-cased and the cell text is not. */
  lemma SearchCaseQuirk()
    ensures SearchHits(Str("a"), "A", true) && SearchHits(Str("A"), "a", false)
    ensures !SearchHits(Str("A"), "A", true)
  {
    assert ToLower("A") == "a";
    assert "a" <= ToLower(CellText(Str("a")));
    assert !Contains("A", "a");
  }
}
