/** The catalog as text: the stream operators of ColMeta, TabMeta and DbMeta. */
module Catalog {

  datatype ColType = TYPE_INT | TYPE_FLOAT | TYPE_STRING

  datatype ColMeta = ColMeta(tabName: string, name: string, typ: ColType, len: int, offset: int, index: bool)

  datatype TabMeta = TabMeta(name: string, cols: seq<ColMeta>)

  datatype DbMeta = DbMeta(name: string, tabs: map<string, TabMeta>)

  predicate IsSpace(c: char) { c == ' ' || c == '\n' || c == '\t' || c == '\r' }

  predicate IsDigit(c: char) { '0' <= c <= '9' }

  // A name that the stream can read back in one piece.
  ghost predicate Word(w: string) {
    w != [] && forall i :: 0 <= i < |w| ==> !IsSpace(w[i])
  }

  ghost predicate WordsCol(c: ColMeta) { Word(c.tabName) && Word(c.name) }

  ghost predicate WordsTab(t: TabMeta) {
    Word(t.name) && forall i :: 0 <= i < |t.cols| ==> WordsCol(t.cols[i])
  }

  /** Names are non-empty and free of white space, and the map's keys are the table names. */
  ghost predicate Printable(d: DbMeta) {
    Word(d.name) && forall n :: n in d.tabs ==> d.tabs[n].name == n && WordsTab(d.tabs[n])
  }

  // ---- numbers

  function Digit(n: nat): (c: char)
    requires n < 10
    ensures IsDigit(c) && Value(c) == n
  {
    '0' + n as char
  }

  function Value(c: char): (n: nat)
    requires IsDigit(c)
    ensures n < 10
  {
    (c - '0') as nat
  }

  function Decimal(n: nat): (s: string)
    ensures s != [] && forall i :: 0 <= i < |s| ==> IsDigit(s[i])
  {
    (if n < 10 then [] else Decimal(n / 10)) + [Digit(n % 10)]
  }

  function PrintInt(n: int): string {
    if n < 0 then "-" + Decimal(-n) else Decimal(n)
  }

  // The number that a run of digits stands for.
  function Number(s: string): nat
    requires forall i :: 0 <= i < |s| ==> IsDigit(s[i])
  {
    if s == [] then 0 else 10 * Number(s[..|s| - 1]) + Value(s[|s| - 1])
  }

  lemma {:induction false} NumberOfDecimal(n: nat)
    ensures Number(Decimal(n)) == n
  {
    var s := Decimal(n);
    assert s[|s| - 1] == Digit(n % 10);
    if n < 10 {
      assert s[..|s| - 1] == [];
    } else {
      assert s[..|s| - 1] == Decimal(n / 10);
      NumberOfDecimal(n / 10);
    }
  }

  // ---- printing

  function TypeCode(t: ColType): int {
    match t case TYPE_INT => 0 case TYPE_FLOAT => 1 case TYPE_STRING => 2
  }

  // Each of the following is the text of an item with `more` behind it.

  function ColText(c: ColMeta, more: string): string {
    c.tabName + (" " + (c.name + (" " + TailText(c, more))))
  }

  function TailText(c: ColMeta, more: string): string {
    PrintInt(TypeCode(c.typ)) + (" " + (PrintInt(c.len) + (" " + (PrintInt(c.offset) + (" " + (PrintInt(BoolCode(c.index)) + more))))))
  }

  function BoolCode(b: bool): int {
    if b then 1 else 0
  }

  function ColsText(cs: seq<ColMeta>, more: string): string {
    if cs == [] then more else ColText(cs[0], "\n" + ColsText(cs[1..], more))
  }

  function TabText(t: TabMeta, more: string): string {
    t.name + ("\n" + (PrintInt(|t.cols|) + ("\n" + ColsText(t.cols, more))))
  }

  // The tables in the order in which the map is walked.
  function TabsText(d: DbMeta, order: seq<string>): string
    requires forall n :: n in order ==> n in d.tabs
  {
    if order == [] then "" else TabText(d.tabs[order[0]], "\n" + TabsText(d, order[1..]))
  }

  function DbText(d: DbMeta, order: seq<string>): string
    requires forall n :: n in order ==> n in d.tabs
  {
    d.name + ("\n" + (PrintInt(|order|) + ("\n" + TabsText(d, order))))
  }

  /** Numbers are printed by their decimal digits. */
  lemma PrintedNumbers()
    ensures PrintInt(1234567890) == "1234567890" && PrintInt(-17) == "-17" && PrintInt(0) == "0"
  {
    forall n: nat | n >= 10 ensures Decimal(n) == Decimal(n / 10) + [Digit(n % 10)] {
    }
    assert Decimal(1) == "1";
    assert Decimal(12) == "12";
    assert Decimal(123) == "123";
    assert Decimal(1234) == "1234";
    assert Decimal(12345) == "12345";
    assert Decimal(123456) == "123456";
    assert Decimal(1234567) == "1234567";
    assert Decimal(12345678) == "12345678";
    assert Decimal(123456789) == "123456789";
    assert Decimal(17) == "17";
  }

  /** The text of a catalog of one table, with a column of each type. */
  lemma PrintedCatalog()
    ensures
      var t := TabMeta("t", [ColMeta("t", "id", TYPE_INT, 4, 0, true), ColMeta("t", "score", TYPE_FLOAT, 4, 4, false),
                             ColMeta("t", "name", TYPE_STRING, 20, 8, false)]);
      DbText(DbMeta("db", map["t" := t]), ["t"]) ==
        "db" + "\n" + "1" + "\n" + "t" + "\n" + "3" + "\n" +
        "t id 0 4 0 1" + "\n" + "t score 1 4 4 0" + "\n" + "t name 2 20 8 0" + "\n" + "\n"
  {
    hide ColText, TabText, PrintInt;
    var a, b, c := ColMeta("t", "id", TYPE_INT, 4, 0, true), ColMeta("t", "score", TYPE_FLOAT, 4, 4, false),
      ColMeta("t", "name", TYPE_STRING, 20, 8, false);
    var nl, x, y, z := "\n", "t name 2 20 8 0", "t score 1 4 4 0", "t id 0 4 0 1";
    var cols := [a, b, c];
    PrintedCols(nl + nl, nl + (x + (nl + nl)), nl + (y + (nl + (x + (nl + nl)))));
    ColsStep(cols, nl);
    ColsStep([b, c], nl);
    ColsStep([c], nl);
    assert cols[1..] == [b, c] && [b, c][1..] == [c];
    var text := z + (nl + (y + (nl + (x + (nl + nl)))));
    assert ["t"][1..] == [];
    SmallNumbers();
    PrintedTab(TabMeta("t", cols), text);
    var m := DbMeta("db", map["t" := TabMeta("t", cols)]);
    assert TabsText(m, []) == "" && nl + "" == nl;
    assert TabsText(m, ["t"]) == TabText(m.tabs["t"], nl + "");
    CatalogGlued("db", "1", "t", "3", nl, x, y, z);
  }

  lemma CatalogGlued(d: string, i: string, t: string, k: string, nl: string, x: string, y: string, z: string)
    ensures d + (nl + (i + (nl + (t + (nl + (k + (nl + (z + (nl + (y + (nl + (x + (nl + nl)))))))))))))
      == d + nl + i + nl + t + nl + k + nl + z + nl + y + nl + x + nl + nl
  {
    var rest := z + (nl + (y + (nl + (x + (nl + nl)))));
    assert rest == z + nl + y + nl + x + nl + nl;
    assert d + (nl + (i + (nl + (t + (nl + (k + (nl + rest))))))) == d + nl + i + nl + t + nl + k + nl + rest;
  }

  lemma PrintedTab(t: TabMeta, text: string)
    requires |t.cols| == 3 && ColsText(t.cols, "\n") == text
    ensures TabText(t, "\n") == t.name + ("\n" + ("3" + ("\n" + text)))
  {
    assert PrintInt(3) == "3";
  }

  lemma PrintedCols(x: string, y: string, z: string)
    ensures ColText(ColMeta("t", "name", TYPE_STRING, 20, 8, false), x) == "t name 2 20 8 0" + x
    ensures ColText(ColMeta("t", "score", TYPE_FLOAT, 4, 4, false), y) == "t score 1 4 4 0" + y
    ensures ColText(ColMeta("t", "id", TYPE_INT, 4, 0, true), z) == "t id 0 4 0 1" + z
  {
    hide ColText, TailText, PrintInt, Decimal;
    SmallNumbers();
    ColGlued(ColMeta("t", "name", TYPE_STRING, 20, 8, false), "2", "20", "8", "0", x);
    ColGlued(ColMeta("t", "score", TYPE_FLOAT, 4, 4, false), "1", "4", "4", "0", y);
    ColGlued(ColMeta("t", "id", TYPE_INT, 4, 0, true), "0", "4", "0", "1", z);
    assert "t" + " " + "name" + " " + "2" + " " + "20" + " " + "8" + " " + "0" == "t name 2 20 8 0";
    assert "t" + " " + "score" + " " + "1" + " " + "4" + " " + "4" + " " + "0" == "t score 1 4 4 0";
    assert "t" + " " + "id" + " " + "0" + " " + "4" + " " + "0" + " " + "1" == "t id 0 4 0 1";
  }

  lemma SmallNumbers()
    ensures PrintInt(0) == "0" && PrintInt(1) == "1" && PrintInt(2) == "2" && PrintInt(4) == "4" && PrintInt(8) == "8"
    ensures PrintInt(20) == "20"
  {
    assert Decimal(2) == "2" && Decimal(20) == Decimal(2) + "0";
  }

  lemma ColGlued(c: ColMeta, typ: string, len: string, offset: string, index: string, more: string)
    requires PrintInt(TypeCode(c.typ)) == typ && PrintInt(c.len) == len && PrintInt(c.offset) == offset && PrintInt(BoolCode(c.index)) == index
    ensures ColText(c, more) == c.tabName + " " + c.name + " " + typ + " " + len + " " + offset + " " + index + more
  {
    hide PrintInt, TypeCode, BoolCode;
    var s := " ";
    assert TailText(c, more) == typ + (s + (len + (s + (offset + (s + (index + more))))));
    assert TailText(c, more) == typ + s + len + s + offset + s + index + more;
    assert ColText(c, more) == c.tabName + s + c.name + s + TailText(c, more);
  }

  lemma ColsStep(cs: seq<ColMeta>, more: string)
    requires cs != []
    ensures ColsText(cs, more) == ColText(cs[0], "\n" + ColsText(cs[1..], more))
    ensures |cs| == 1 ==> ColsText(cs, more) == ColText(cs[0], "\n" + more)
  {
  }

  // What may follow a word or a number.
  ghost predicate Ends(s: string) {
    s == [] || IsSpace(s[0])
  }

  // ---- the input stream

  lemma Head(a: string, b: string)
    ensures a == [] ==> a + b == b
    ensures a != [] ==> a + b != [] && (a + b)[0] == a[0] && (a + b)[1..] == a[1..] + b
  {
  }

  // An item of which `done` has been read: one character more.
  lemma OneMore(item: string, done: string, left: string, more: string)
    requires item == done + left && left != []
    ensures item == (done + [left[0]]) + left[1..] && left[0] == item[|done|]
    ensures (left + more)[0] == left[0] && (left + more)[1..] == left[1..] + more
    ensures left[1..] != [] ==> left[1..][0] == item[|done| + 1] && left[1..] + more != [] && (left[1..] + more)[0] == left[1..][0]
    ensures left[1..] == [] ==> left[1..] + more == more
  {
  }

  ghost predicate Spaces(s: string) {
    forall i :: 0 <= i < |s| ==> IsSpace(s[i])
  }

  class IStream {
    var rest: string

    constructor (text: string)
      ensures rest == text
    {
      rest := text;
    }

    // White space before the next item is skipped.
    method Skip(ghost spaces: string, ghost more: string)
      requires rest == spaces + more && Spaces(spaces) && more != [] && !IsSpace(more[0])
      modifies this
      ensures rest == more
    {
      ghost var left := spaces;
      Head(left, more);
      while rest != [] && IsSpace(rest[0])
        invariant rest == left + more && Spaces(left)
        invariant left == [] ==> rest == more
        invariant left != [] ==> rest != [] && rest[0] == left[0]
        decreases |rest|
      {
        Head(left, more);
        rest := rest[1..];
        left := left[1..];
        Head(left, more);
      }
    }

    /** Reading a word that was printed gives the word. */
    method ReadWord(ghost spaces: string, ghost w: string, ghost more: string) returns (r: string)
      requires rest == spaces + (w + more) && Spaces(spaces) && Word(w) && Ends(more)
      modifies this
      ensures r == w && rest == more
    {
      Skip(spaces, w + more);
      r := [];
      ghost var left := w;
      Head(left, more);
      while rest != [] && !IsSpace(rest[0])
        invariant w == r + left && rest == left + more
        invariant left == [] ==> rest == more
        invariant left != [] ==> rest != [] && rest[0] == left[0] && !IsSpace(left[0])
        decreases |rest|
      {
        OneMore(w, r, left, more);
        r := r + [rest[0]];
        rest := rest[1..];
        left := left[1..];
      }
      assert r + [] == r;
    }

    // Digits up to the end of the number.
    method ReadDigits(ghost d: string, ghost more: string) returns (r: nat)
      requires (forall i :: 0 <= i < |d| ==> IsDigit(d[i])) && rest == d + more && Ends(more)
      modifies this
      ensures r == Number(d) && rest == more
    {
      hide Value;
      r := 0;
      ghost var done, left := "", d;
      Head(left, more);
      while rest != [] && IsDigit(rest[0])
        invariant d == done + left && rest == left + more
        invariant (forall i :: 0 <= i < |done| ==> IsDigit(done[i])) && r == Number(done)
        invariant left == [] ==> rest == more
        invariant left != [] ==> rest != [] && rest[0] == left[0] && IsDigit(left[0])
        decreases |rest|
      {
        OneMore(d, done, left, more);
        NumberMore(done, rest[0]);
        r := 10 * r + Value(rest[0]);
        done := done + [rest[0]];
        rest := rest[1..];
        left := left[1..];
      }
      assert done + [] == done;
    }

    lemma NumberMore(s: string, c: char)
      requires (forall i :: 0 <= i < |s| ==> IsDigit(s[i])) && IsDigit(c)
      ensures forall i :: 0 <= i < |s + [c]| ==> IsDigit((s + [c])[i])
      ensures Number(s + [c]) == 10 * Number(s) + Value(c)
    {
      assert (s + [c])[..|s|] == s;
    }

    /** Reading a number that was printed gives the number. */
    method ReadInt(ghost spaces: string, ghost n: int, ghost more: string) returns (r: int)
      requires rest == spaces + (PrintInt(n) + more) && Spaces(spaces) && Ends(more)
      modifies this
      ensures r == n && rest == more
    {
      hide Decimal;
      Head(PrintInt(n), more);
      Skip(spaces, PrintInt(n) + more);
      ghost var m: nat := if n < 0 then -n else n;
      NumberOfDecimal(m);
      if rest[0] == '-' {
        assert rest == "-" + (Decimal(m) + more);
        rest := rest[1..];
        r := ReadDigits(Decimal(m), more);
        r := -r;
      } else {
        r := ReadDigits(Decimal(m), more);
      }
    }

    // operator>> of ColMeta, the numbers.
    method ReadTail(ghost c: ColMeta, ghost more: string) returns (typ: ColType, len: int, offset: int, index: bool)
      requires rest == " " + TailText(c, more) && Ends(more)
      modifies this
      ensures typ == c.typ && len == c.len && offset == c.offset && index == c.index && rest == more
    {
      hide PrintInt;
      ghost var m3 := " " + (PrintInt(BoolCode(c.index)) + more);
      ghost var m2 := " " + (PrintInt(c.offset) + m3);
      ghost var m1 := " " + (PrintInt(c.len) + m2);
      var code := ReadInt(" ", TypeCode(c.typ), m1);
      len := ReadInt(" ", c.len, m2);
      offset := ReadInt(" ", c.offset, m3);
      var bit := ReadInt(" ", BoolCode(c.index), more);
      typ := if code == 0 then TYPE_INT else if code == 1 then TYPE_FLOAT else TYPE_STRING;
      index := bit != 0;
    }

    /** operator>> of ColMeta. */
    method ReadCol(ghost spaces: string, ghost c: ColMeta, ghost more: string) returns (r: ColMeta)
      requires rest == spaces + ColText(c, more) && Spaces(spaces) && WordsCol(c) && Ends(more)
      modifies this
      ensures r == c && rest == more
    {
      hide TailText, Word;
      ghost var m2 := " " + TailText(c, more);
      ghost var m1 := " " + (c.name + m2);
      var tabName := ReadWord(spaces, c.tabName, m1);
      var name := ReadWord(" ", c.name, m2);
      var typ, len, offset, index := ReadTail(c, more);
      r := ColMeta(tabName, name, typ, len, offset, index);
    }

    /** operator>> of TabMeta. */
    method ReadTab(ghost spaces: string, ghost t: TabMeta, ghost more: string) returns (r: TabMeta)
      requires rest == spaces + TabText(t, more) && Spaces(spaces) && WordsTab(t)
      modifies this
      ensures r == t && rest == "\n" + more
    {
      hide ColText, Word, PrintInt;
      ghost var m2 := "\n" + ColsText(t.cols, more);
      ghost var m1 := "\n" + (PrintInt(|t.cols|) + m2);
      var name := ReadWord(spaces, t.name, m1);
      var n := ReadInt("\n", |t.cols|, m2);
      var cols := [];
      var i := 0;
      while i < n
        invariant 0 <= i <= n == |t.cols| && cols == t.cols[..i]
        invariant rest == "\n" + ColsText(t.cols[i..], more)
      {
        assert t.cols[i..][1..] == t.cols[i + 1..];
        var col := ReadCol("\n", t.cols[i], "\n" + ColsText(t.cols[i + 1..], more));
        cols := cols + [col];
        i := i + 1;
      }
      assert t.cols[..i] == t.cols && t.cols[i..] == [];
      r := TabMeta(name, cols);
    }

    /** operator>> of DbMeta: reading back a printed catalog gives the catalog, in whatever order its tables were
        printed. */
    method ReadDb(ghost d: DbMeta, ghost order: seq<string>) returns (r: DbMeta)
      requires Printable(d) && (forall n :: n in order <==> n in d.tabs)
      requires (forall i, j :: 0 <= i < j < |order| ==> order[i] != order[j])
      requires rest == DbText(d, order)
      modifies this
      ensures r == d
    {
      hide TabText, Word, WordsTab, PrintInt;
      ghost var m2 := "\n" + TabsText(d, order);
      ghost var m1 := "\n" + (PrintInt(|order|) + m2);
      assert rest == "" + (d.name + m1);
      var name := ReadWord("", d.name, m1);
      var n := ReadInt("\n", |order|, m2);
      var tabs := ReadTabs(d, order, n);
      r := DbMeta(name, tabs);
    }

    // operator>> of DbMeta, the loop over the tables.
    method ReadTabs(ghost d: DbMeta, ghost order: seq<string>, n: int) returns (tabs: map<string, TabMeta>)
      requires Printable(d) && (forall m :: m in order <==> m in d.tabs)
      requires rest == "\n" + TabsText(d, order) && n == |order|
      modifies this
      ensures tabs == d.tabs
    {
      hide TabText, Word, WordsTab, PrintInt;
      tabs := map[];
      var i := 0;
      ghost var spaces := "\n";
      while i < n
        invariant 0 <= i <= n == |order| && Spaces(spaces)
        invariant rest == spaces + TabsText(d, order[i..])
        invariant forall m :: m in tabs <==> m in order[..i]
        invariant forall m :: m in tabs ==> m in d.tabs && tabs[m] == d.tabs[m]
      {
        ghost var after := TabsText(d, order[i + 1..]);
        assert order[i..][1..] == order[i + 1..] && order[i..][0] == order[i];
        assert order[i] in order;
        var tab := ReadTab(spaces, d.tabs[order[i]], "\n" + after);
        tabs := tabs[tab.name := tab];
        assert order[..i + 1] == order[..i] + [order[i]];
        assert "\n" + ("\n" + after) == "\n\n" + after;
        spaces := "\n\n";
        i := i + 1;
      }
      assert order[..i] == order;
    }
  }

  /** Printing and reading back, from one end to the other. */
  method RoundTrip(d: DbMeta, ghost order: seq<string>, text: string) returns (r: DbMeta)
    requires Printable(d) && (forall n :: n in order <==> n in d.tabs)
    requires forall i, j :: 0 <= i < j < |order| ==> order[i] != order[j]
    requires text == DbText(d, order)
    ensures r == d
  {
    var stream := new IStream(text);
    r := stream.ReadDb(d, order);
  }
}
