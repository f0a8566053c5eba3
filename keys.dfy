/** The string keys the source builds with template literals: the engine's
    slot key `${grade}-${classNumber}-${day}-${period}` and the grid's cell
    key `${day}-${period}`. Numbers render in decimal and an absent field
    renders as `undefined`, as a template literal does. */
module Keys {
  import opened Types

  predicate IsDigit(c: char)
  {
    '0' <= c <= '9'
  }

  function Digit(n: nat): (c: char)
    requires n < 10
    ensures IsDigit(c)
  {
    ('0' as int + n) as char
  }

  /** The decimal rendering of a non-negative integer. */
  function NatStr(n: nat): (r: string)
    ensures |r| >= 1
    ensures forall i :: 0 <= i < |r| ==> IsDigit(r[i])
  {
    if n < 10 then [Digit(n)] else NatStr(n / 10) + [Digit(n % 10)]
  }

  /** The rendering of an optional number: `undefined` when absent. */
  function Render(x: Option<nat>): string
  {
    match x
    case None => "undefined"
    case Some(n) => NatStr(n)
  }

  /** Two parts joined by a dash. */
  function Dashed(a: string, b: string): string
  {
    a + "-" + b
  }

  /** The engine's key for a slot (geminiService.ts lines 13 and 60). */
  function SlotKey(s: Slot): (r: string)
    ensures r == Dashed(Render(s.grade), Dashed(Render(s.classNumber), CellKey(s.day, s.period)))
  {
    Dashed(Render(s.grade), Dashed(Render(s.classNumber), Dashed(DayName(s.day), NatStr(s.period))))
  }

  /** The grid's key for a cell (App.tsx line 64). */
  function CellKey(d: Day, p: nat): (r: string)
    ensures |r| >= 3 && r[1] == '-'
  {
    Dashed(DayName(d), NatStr(p))
  }

  /** The grid's cell key is the tail of the engine's slot key, after the
      grade, the class and their two dashes. */
  lemma SlotKeyEndsWithCellKey(s: Slot)
    ensures var k, c := SlotKey(s), CellKey(s.day, s.period);
      |k| == |Render(s.grade)| + |Render(s.classNumber)| + 2 + |c| && k[|k| - |c|..] == c &&
      k[..|Render(s.grade)|] == Render(s.grade) && k[|Render(s.grade)|] == '-'
  {
  }

  /** Different numbers render differently. */
  lemma {:induction false} NatStrInjective(a: nat, b: nat)
    requires NatStr(a) == NatStr(b)
    ensures a == b
  {
    var ra, rb := NatStr(a), NatStr(b);
    if a < 10 && b < 10 {
      assert ra[0] == Digit(a) && rb[0] == Digit(b);
    } else if a >= 10 && b >= 10 {
      assert ra[|ra| - 1] == Digit(a % 10) && rb[|rb| - 1] == Digit(b % 10);
      assert ra[..|ra| - 1] == NatStr(a / 10) && rb[..|rb| - 1] == NatStr(b / 10);
      NatStrInjective(a / 10, b / 10);
    }
  }

  lemma NatStrIsNotUndefined(n: nat)
    ensures NatStr(n) != "undefined"
  {
    assert IsDigit(NatStr(n)[0]);
  }

  lemma RenderInjective(x: Option<nat>, y: Option<nat>)
    requires Render(x) == Render(y)
    ensures x == y
  {
    match x
    case None => if y.Some? { NatStrIsNotUndefined(y.value); }
    case Some(m) =>
      match y
      case None => NatStrIsNotUndefined(m);
      case Some(n) => NatStrInjective(m, n);
  }

  lemma DayNameInjective(d: Day, e: Day)
    requires DayName(d) == DayName(e)
    ensures d == e
  {
  }

  /** A dash after a dash-free first part marks where that part ends, so
      dashed joins split back uniquely. */
  lemma DashedSplits(a: string, b: string, c: string, d: string)
    requires '-' !in a && '-' !in c
    requires Dashed(a, b) == Dashed(c, d)
    ensures a == c && b == d
  {
    var x := Dashed(a, b);
    assert x[|a|] == '-' && x[|c|] == '-';
    assert forall i :: 0 <= i < |a| ==> x[i] == a[i] != '-';
    assert forall i :: 0 <= i < |c| ==> x[i] == c[i] != '-';
    assert a == x[..|a|] && c == x[..|c|];
    assert b == x[|a| + 1..] && d == x[|c| + 1..];
  }

  lemma RenderDashFree(x: Option<nat>)
    ensures '-' !in Render(x)
  {
  }

  lemma NatStrDashFree(n: nat)
    ensures '-' !in NatStr(n)
  {
  }

  /** Slot keys are injective on (grade, classNumber, day, period): two
      slots share a key exactly when they agree on those four fields. */
  lemma SlotKeyInjective(s: Slot, t: Slot)
    ensures SlotKey(s) == SlotKey(t) <==>
      s.grade == t.grade && s.classNumber == t.classNumber && s.day == t.day && s.period == t.period
  {
    if SlotKey(s) == SlotKey(t) {
      RenderDashFree(s.grade);
      RenderDashFree(t.grade);
      DashedSplits(Render(s.grade), Dashed(Render(s.classNumber), Dashed(DayName(s.day), NatStr(s.period))),
                   Render(t.grade), Dashed(Render(t.classNumber), Dashed(DayName(t.day), NatStr(t.period))));
      RenderInjective(s.grade, t.grade);
      RenderDashFree(s.classNumber);
      RenderDashFree(t.classNumber);
      DashedSplits(Render(s.classNumber), Dashed(DayName(s.day), NatStr(s.period)),
                   Render(t.classNumber), Dashed(DayName(t.day), NatStr(t.period)));
      RenderInjective(s.classNumber, t.classNumber);
      DashedSplits(DayName(s.day), NatStr(s.period), DayName(t.day), NatStr(t.period));
      DayNameInjective(s.day, t.day);
      NatStrInjective(s.period, t.period);
    }
  }

  /** Cell keys are injective on (day, period): the grid's merge reads one
      entry per time, shared by every cell of that time. */
  lemma CellKeyInjective(d: Day, p: nat, e: Day, q: nat)
    ensures CellKey(d, p) == CellKey(e, q) <==> d == e && p == q
  {
    if CellKey(d, p) == CellKey(e, q) {
      DashedSplits(DayName(d), NatStr(p), DayName(e), NatStr(q));
      DayNameInjective(d, e);
      NatStrInjective(p, q);
    }
  }

  /** No slot key is a cell key: the first part of a slot key is a number
      or `undefined`, never a day name. */
  lemma SlotKeyIsNeverCellKey(s: Slot, d: Day, p: nat)
    ensures SlotKey(s) != CellKey(d, p)
  {
    if SlotKey(s) == CellKey(d, p) {
      RenderDashFree(s.grade);
      DashedSplits(Render(s.grade), Dashed(Render(s.classNumber), Dashed(DayName(s.day), NatStr(s.period))),
                   DayName(d), NatStr(p));
      assert false;
    }
  }
}
