/** sqlite_copy: the rows of a query become quoted, comma-separated texts, these become one INSERT
    statement, and the statement can be read back. */
module SqlCopies {

  /** `Err` is the `std::out_of_range` thrown by `erase(npos)`. */
  datatype Result<T> = Ok(value: T) | Err

  // ----- strings

  /** `find_last_of` for one character; -1 stands for `npos`. */
  function FindLast(s: string, c: char): (p: int)
    ensures -1 <= p < |s|
    ensures p >= 0 ==> s[p] == c
    ensures forall i | p < i < |s| :: s[i] != c
  {
    if s == "" then -1
    else if s[|s| - 1] == c then |s| - 1
    else FindLast(s[..|s| - 1], c)
  }

  /** `s.erase(s.find_last_of(","))` */
  function EraseFromLastComma(s: string): Result<string> {
    if FindLast(s, ',') == -1 then Err else Ok(s[..FindLast(s, ',')])
  }

  /** Every text followed by the delimiter, the last one too. */
  function Imploded(xs: seq<string>, delim: string): string {
    if xs == [] then "" else xs[0] + delim + Imploded(xs[1..], delim)
  }

  /** The texts with the delimiter between them. */
  function Join(xs: seq<string>, delim: string): string {
    if xs == [] then "" else if |xs| == 1 then xs[0] else xs[0] + delim + Join(xs[1..], delim)
  }

  lemma {:induction false} ImplodedIsJoin(xs: seq<string>, delim: string)
    requires xs != []
    ensures Imploded(xs, delim) == Join(xs, delim) + delim
  {
    if |xs| == 1 {
      assert xs[1..] == [] && xs[0] + delim + "" == xs[0] + delim;
    } else {
      ImplodedIsJoin(xs[1..], delim);
      assert xs[0] + delim + (Join(xs[1..], delim) + delim) == (xs[0] + delim + Join(xs[1..], delim)) + delim;
    }
  }

  /** What joining means: one text stays as it is, and between two groups the delimiter stands once. */
  lemma {:induction false} JoinConcatenates(xs: seq<string>, ys: seq<string>, delim: string)
    requires xs != [] && ys != []
    ensures Join(xs + ys, delim) == Join(xs, delim) + (delim + Join(ys, delim))
    ensures forall x :: Join([x], delim) == x
  {
    assert (xs + ys)[1..] == xs[1..] + ys;
    if |xs| == 1 {
      assert xs[1..] + ys == ys;
      Reassociate(xs[0], delim, Join(ys, delim), "");
    } else {
      JoinConcatenates(xs[1..], ys, delim);
      Reassociate(xs[0] + delim, Join(xs[1..], delim), delim + Join(ys, delim), "");
    }
  }

  lemma {:induction false} ImplodedAppend(xs: seq<string>, x: string, delim: string)
    ensures Imploded(xs + [x], delim) == Imploded(xs, delim) + x + delim
  {
    if xs == [] {
      assert [x][1..] == [] && x + delim + "" == "" + x + delim;
    } else {
      assert (xs + [x])[1..] == xs[1..] + [x];
      ImplodedAppend(xs[1..], x, delim);
      assert xs[0] + delim + (Imploded(xs[1..], delim) + x + delim)
             == (xs[0] + delim + Imploded(xs[1..], delim)) + x + delim;
    }
  }

  lemma FindLastIs(s: string, c: char, p: nat)
    requires p < |s| && s[p] == c && forall i | p < i < |s| :: s[i] != c
    ensures FindLast(s, c) == p
  {
  }

  /** With a comma in the delimiter, erasing from the last comma leaves every text whole, whatever commas
      the texts hold, and cuts the last delimiter at its last comma. */
  lemma EraseCutsDelimiter(before: string, xs: seq<string>, delim: string)
    requires xs != [] && FindLast(delim, ',') >= 0
    ensures EraseFromLastComma(before + Imploded(xs, delim)) ==
            Ok(before + Join(xs, delim) + delim[..FindLast(delim, ',')])
  {
    ImplodedIsJoin(xs, delim);
    var s, body, q := before + Imploded(xs, delim), before + Join(xs, delim), FindLast(delim, ',');
    assert s == body + delim;
    FindLastIs(s, ',', |body| + q);
    assert s[..|body| + q] == body + delim[..q];
  }

  /** The last comma of a text is the last one of its last part that holds any. */
  lemma EraseInPart(before: string, part: string, after: string)
    requires ',' in part && ',' !in after
    ensures FindLast(part, ',') >= 0
    ensures EraseFromLastComma(before + part + after) == Ok(before + part[..FindLast(part, ',')])
  {
    var s, q := before + part + after, FindLast(part, ',');
    var k :| 0 <= k < |part| && part[k] == ',';
    forall i | |before| + q < i < |s|
      ensures s[i] != ','
    {
      assert s[i] == if i < |before| + |part| then part[i - |before|] else after[i - |before| - |part|];
    }
    FindLastIs(s, ',', |before| + q);
    assert s[..|before| + q] == before + part[..q];
  }

  lemma NothingToErase(s: string)
    ensures EraseFromLastComma(s) == Err <==> ',' !in s
  {
  }

  lemma EraseTrailing(before: string, xs: seq<string>)
    requires xs != []
    ensures EraseFromLastComma(before + Imploded(xs, ", ")) == Ok(before + Join(xs, ", "))
  {
    FindLastIs(", ", ',', 0);
    EraseCutsDelimiter(before, xs, ", ");
    assert before + Join(xs, ", ") + "" == before + Join(xs, ", ");
  }

  /** `container_to_string` */
  method ContainerToString(names: seq<string>, delim: string) returns (r: Result<string>)
    ensures r == EraseFromLastComma(Imploded(names, delim))
  {
    var imploded := "";
    for i := 0 to |names|
      invariant imploded == Imploded(names[..i], delim)
    {
      ImplodedAppend(names[..i], names[i], delim);
      assert names[..i + 1] == names[..i] + [names[i]];
      imploded := imploded + names[i] + delim;
    }
    assert names[..|names|] == names;
    r := EraseFromLastComma(imploded);
  }

  lemma CommaFreeDelimiter(names: seq<string>, delim: string)
    requires ',' !in delim
    ensures EraseFromLastComma(Imploded(names, delim)) == EraseFromLastComma(Join(names, delim))
    ensures EraseFromLastComma(Join(names, delim)) == Err <==> forall i | 0 <= i < |names| :: ',' !in names[i]
  {
    CommaInJoin(names, delim);
    var text := Join(names, delim);
    if names != [] {
      ImplodedIsJoin(names, delim);
      assert "" + text == text;
      if ',' in text {
        EraseInPart("", text, delim);
        EraseInPart("", text, "");
        assert text + "" == text;
      }
    }
  }

  lemma {:induction false} CommaInJoin(xs: seq<string>, delim: string)
    ensures ',' in Join(xs, delim) <==>
            (|xs| > 1 && ',' in delim) || exists i :: 0 <= i < |xs| && ',' in xs[i]
  {
    if |xs| > 1 {
      CommaInJoin(xs[1..], delim);
      CommaInParts(xs[0], delim, Join(xs[1..], delim), "");
      assert xs[0] + delim + Join(xs[1..], delim) + "" == Join(xs, delim);
      FirstOrLater(xs);
    }
  }

  lemma FirstOrLater(xs: seq<string>)
    requires xs != []
    ensures (exists i :: 0 <= i < |xs| && ',' in xs[i])
            <==> ',' in xs[0] || exists i :: 0 <= i < |xs[1..]| && ',' in xs[1..][i]
  {
    if i :| 0 <= i < |xs| && ',' in xs[i] {
      assert i > 0 ==> xs[1..][i - 1] == xs[i];
    }
  }

  lemma CommaInParts(a: string, b: string, c: string, d: string)
    ensures ',' in a + b + c + d <==> ',' in a || ',' in b || ',' in c || ',' in d
  {
  }

  /** What that text is: nothing to return without names; otherwise the names joined, each one whole,
      and what the delimiter holds before its last comma.  A delimiter without a comma leaves the cut to
      the last comma in the names, and to an exception if they hold none. */
  lemma ContainerText(names: seq<string>, delim: string)
    ensures names == [] ==> EraseFromLastComma(Imploded(names, delim)) == Err
    ensures names != [] && FindLast(delim, ',') >= 0 ==>
              EraseFromLastComma(Imploded(names, delim)) == Ok(Join(names, delim) + delim[..FindLast(delim, ',')])
    ensures names != [] && delim == ", " ==> EraseFromLastComma(Imploded(names, delim)) == Ok(Join(names, delim))
    ensures ',' !in delim ==> EraseFromLastComma(Imploded(names, delim)) == EraseFromLastComma(Join(names, delim))
    ensures ',' !in delim ==>
              (EraseFromLastComma(Imploded(names, delim)) == Err <==> forall i | 0 <= i < |names| :: ',' !in names[i])
  {
    if ',' !in delim {
      CommaFreeDelimiter(names, delim);
    }
    var s := Imploded(names, delim);
    assert "" + s == s && "" + Join(names, delim) == Join(names, delim);
    if names != [] && FindLast(delim, ',') >= 0 {
      EraseCutsDelimiter("", names, delim);
    }
    if names != [] && delim == ", " {
      EraseTrailing("", names);
    }
  }

  // ----- rows of a query

  /** `c[name]`: the field under the first column of that name. */
  function Field(columns: seq<string>, row: seq<string>, name: string): (field: string)
    requires |columns| == |row| && name in columns
    ensures exists k :: 0 <= k < |row| && columns[k] == name && row[k] == field && name !in columns[..k]
  {
    if columns[0] == name then row[0] else Field(columns[1..], row[1..], name)
  }

  function Quoted(v: string): (q: string)
    ensures |q| == |v| + 2 && q[0] == '\'' == q[|v| + 1] && q[1..|v| + 1] == v
  {
    "'" + v + "'"
  }

  function QuotedAll(row: seq<string>): (q: seq<string>)
    ensures |q| == |row| && forall i | 0 <= i < |row| :: q[i] == Quoted(row[i])
  {
    if row == [] then [] else [Quoted(row[0])] + QuotedAll(row[1..])
  }

  function RowText(row: seq<string>): string {
    Join(QuotedAll(row), ", ")
  }

  /** The fields of a row as the loop over the column names finds them. */
  function ByName(columns: seq<string>, row: seq<string>): (r: seq<string>)
    requires |columns| == |row|
    ensures |r| == |row| && forall i | 0 <= i < |row| :: r[i] == Field(columns, row, columns[i])
  {
    seq(|row|, i requires 0 <= i < |row| => Field(columns, row, columns[i]))
  }

  ghost predicate Distinct(xs: seq<string>) {
    forall i, j | 0 <= i < j < |xs| :: xs[i] != xs[j]
  }

  lemma {:induction false} FieldAt(columns: seq<string>, row: seq<string>, i: nat)
    requires |columns| == |row| && i < |columns| && Distinct(columns)
    ensures Field(columns, row, columns[i]) == row[i]
  {
    if i > 0 {
      assert columns[1..][i - 1] == columns[i] && row[1..][i - 1] == row[i];
      FieldAt(columns[1..], row[1..], i - 1);
    }
  }

  /** With distinct column names, as in any table, that is the row itself. */
  lemma ByNameIsRow(columns: seq<string>, row: seq<string>)
    requires |columns| == |row| && Distinct(columns)
    ensures ByName(columns, row) == row
  {
    forall i | 0 <= i < |row|
      ensures ByName(columns, row)[i] == row[i]
    {
      FieldAt(columns, row, i);
    }
  }

  /** One row of the result as text. */
  method BuildRow(columns: seq<string>, row: seq<string>) returns (r: Result<string>)
    requires |columns| == |row|
    ensures r == if columns == [] then Err else Ok(RowText(ByName(columns, row)))
  {
    var holder := "";
    ghost var fields := ByName(columns, row);
    ghost var q := QuotedAll(fields);
    for i := 0 to |columns|
      invariant holder == Imploded(q[..i], ", ")
    {
      AppendField(q, i, fields[i]);
      holder := holder + ("'" + Field(columns, row, columns[i]) + "', ");
    }
    assert q[..|row|] == q;
    ContainerText(q, ", ");
    r := EraseFromLastComma(holder);
  }

  lemma AppendField(q: seq<string>, i: nat, v: string)
    requires i < |q| && q[i] == Quoted(v)
    ensures Imploded(q[..i], ", ") + ("'" + v + "', ") == Imploded(q[..i + 1], ", ")
  {
    ImplodedAppend(q[..i], q[i], ", ");
    assert q[..i + 1] == q[..i] + [q[i]];
    assert "'" + v + "', " == Quoted(v) + ", ";
    Reassociate(Imploded(q[..i], ", "), Quoted(v), ", ", "");
  }

  function RowTexts(rows: seq<seq<string>>): (t: seq<string>)
    ensures |t| == |rows| && forall i | 0 <= i < |rows| :: t[i] == RowText(rows[i])
  {
    if rows == [] then [] else [RowText(rows[0])] + RowTexts(rows[1..])
  }

  ghost predicate Rectangular(columns: seq<string>, rows: seq<seq<string>>) {
    forall i | 0 <= i < |rows| :: |rows[i]| == |columns|
  }

  ghost function AllByName(columns: seq<string>, rows: seq<seq<string>>): (r: seq<seq<string>>)
    requires Rectangular(columns, rows)
    ensures |r| == |rows| && forall i | 0 <= i < |rows| :: r[i] == ByName(columns, rows[i])
  {
    seq(|rows|, i requires 0 <= i < |rows| => ByName(columns, rows[i]))
  }

  method BuildRows(columns: seq<string>, rows: seq<seq<string>>) returns (values: seq<string>)
    requires columns != [] && Rectangular(columns, rows)
    ensures values == RowTexts(AllByName(columns, rows))
  {
    values := [];
    for i := 0 to |rows|
      invariant |values| == i && forall k | 0 <= k < i :: values[k] == RowText(ByName(columns, rows[k]))
    {
      var text := BuildRow(columns, rows[i]);
      values := values + [text.value];
    }
  }

  /** `select_data`, given what the query returned.  Without columns it fails before looking at the rows;
      it catches its own exception, and hands on no texts. */
  method SelectData(columns: seq<string>, rows: seq<seq<string>>) returns (r: Result<seq<string>>)
    requires Rectangular(columns, rows)
    ensures r == if columns == [] then Err else Ok(RowTexts(AllByName(columns, rows)))
  {
    var names := ContainerToString(columns, ", ");
    ContainerText(columns, ", ");
    if names == Err {
      return Err;
    }
    var values := BuildRows(columns, rows);
    r := Ok(values);
  }

  // ----- the statement

  function Head(table: string, columns: seq<string>): string {
    "INSERT INTO " + table + " ( " + Join(columns, ", ") + ") VALUES "
  }

  function Bracketed(texts: seq<string>): (b: seq<string>)
    ensures |b| == |texts| && forall i | 0 <= i < |texts| :: b[i] == "( " + texts[i] + ")"
  {
    if texts == [] then [] else ["( " + texts[0] + ")"] + Bracketed(texts[1..])
  }

  /** One more bracketed row, and its separator, at the end of the statement. */
  lemma AppendRow(head: string, b: seq<string>, i: nat, o: string, d: string, x: string, y: string, end: string)
    requires i < |b| && b[i] == o + d + x && end == x + y
    ensures head + Imploded(b[..i], y) + o + d + end == head + Imploded(b[..i + 1], y)
  {
    ImplodedAppend(b[..i], b[i], y);
    assert b[..i + 1] == b[..i] + [b[i]];
    Regroup(head, Imploded(b[..i], y), o, d, x, y);
  }

  lemma Regroup(h: string, b: string, o: string, d: string, x: string, y: string)
    ensures h + b + o + d + (x + y) == h + (b + (o + d + x) + y)
  {
  }

  /** How `insert_data` ends before the database sees the statement: with the text to send, with the
      exception of line 114 caught and 1 returned, or with the one of line 96, outside the `try`, thrown on. */
  datatype Outcome = Send(sql: string) | Reported | Thrown

  function Sending(sql: Result<string>): Outcome {
    match sql
    case Err => Reported
    case Ok(text) => Send(text)
  }

  /** The statement-building part of `insert_data`. */
  method InsertStatement(table: string, columns: seq<string>, data: seq<string>) returns (r: Outcome)
    ensures columns == [] ==> r == Thrown
    ensures columns != [] && data != [] ==>
              r == Send("INSERT INTO " + table + " ( " + Join(columns, ", ") + ") VALUES " + Join(Bracketed(data), ", "))
    ensures columns != [] && data == [] ==>
              match EraseFromLastComma("INSERT INTO " + table + " ( " + Join(columns, ", ") + ") VALUES ")
              case Err => r == Reported
              case Ok(text) => r == Send(text)
  {
    var names := ContainerToString(columns, ", ");
    ContainerText(columns, ", ");
    if names == Err {
      return Thrown;
    }
    var sql := "INSERT INTO " + table + " ( " + names.value + ") VALUES ";
    assert sql == Head(table, columns) + "";
    for i := 0 to |data|
      invariant sql == Head(table, columns) + Imploded(Bracketed(data)[..i], ", ")
    {
      AppendRow(Head(table, columns), Bracketed(data), i, "( ", data[i], ")", ", ", "), ");
      sql := sql + "( " + data[i] + "), ";
    }
    assert Bracketed(data)[..|data|] == Bracketed(data);
    r := Sending(EraseFromLastComma(sql));
    if data != [] {
      EraseTrailing(Head(table, columns), Bracketed(data));
    } else {
      assert sql == Head(table, columns);
    }
  }

  /** Without rows the last comma of the head goes, and everything after it.  With two columns or more, or
      a comma in the only column's name, that cuts the column list; else, with a comma in the table's name,
      that name; and else there is nothing to cut and the statement fails. */
  lemma NoRowsNoStatement(table: string, columns: seq<string>)
    requires columns != []
    ensures var list := Join(columns, ", ");
            && (',' in list <==> |columns| > 1 || ',' in columns[0])
            && EraseFromLastComma(Head(table, columns)) ==
               if ',' in list then Ok("INSERT INTO " + table + " ( " + list[..FindLast(list, ',')])
               else if ',' in table then Ok("INSERT INTO " + table[..FindLast(table, ',')])
               else Err
  {
    var list, tail := Join(columns, ", "), ") VALUES ";
    assert ", "[0] == ',';
    CommaInJoin(columns, ", ");
    CommasOfHead("INSERT INTO ", table, " ( ", list, tail);
  }

  lemma CommasOfHead(a: string, table: string, b: string, list: string, tail: string)
    requires ',' !in a && ',' !in b && ',' !in tail
    ensures ',' in list ==> FindLast(list, ',') >= 0
    ensures ',' in table ==> FindLast(table, ',') >= 0
    ensures EraseFromLastComma(a + table + b + list + tail) ==
            if ',' in list then Ok(a + table + b + list[..FindLast(list, ',')])
            else if ',' in table then Ok(a + table[..FindLast(table, ',')])
            else Err
  {
    if ',' in list {
      EraseInPart(a + table + b, list, tail);
    } else if ',' in table {
      Regroup3(a + table, b, list, tail);
      CommaInParts(b, list, tail, "");
      assert b + list + tail + "" == b + list + tail;
      EraseInPart(a, table, b + list + tail);
    } else {
      CommaInParts(a, table, b, list);
      CommaInParts(a + table + b + list, tail, "", "");
      assert a + table + b + list + tail + "" + "" == a + table + b + list + tail;
      NothingToErase(a + table + b + list + tail);
    }
  }

  lemma Regroup3(a: string, b: string, c: string, d: string)
    ensures a + b + c + d == a + (b + c + d)
  {
  }

  // ----- reading the statement back

  datatype Read<T> = Fail | Got(value: T, rest: string)

  /** The position of the first `c`, or the length. */
  function FirstOf(s: string, c: char): (k: nat)
    ensures k <= |s| && (k < |s| ==> s[k] == c)
    ensures forall i | 0 <= i < k :: s[i] != c
  {
    if s == "" || s[0] == c then 0 else 1 + FirstOf(s[1..], c)
  }

  function ReadQuoted(s: string): (r: Read<string>)
    ensures r.Got? ==> |r.rest| < |s|
  {
    if s == "" || s[0] != '\'' then Fail
    else
      var k := FirstOf(s[1..], '\'');
      if k == |s| - 1 then Fail else Got(s[1..][..k], s[1..][k + 1..])
  }

  function ReadRow(s: string): (r: Read<seq<string>>)
    ensures r.Got? ==> |r.rest| < |s|
    decreases |s|
  {
    match ReadQuoted(s)
    case Fail => Fail
    case Got(v, rest) =>
      if ", " <= rest then
        match ReadRow(rest[2..])
        case Fail => Fail
        case Got(vs, rest') => Got([v] + vs, rest')
      else Got([v], rest)
  }

  function ReadRows(s: string): Result<seq<seq<string>>>
    decreases |s|
  {
    if !("( " <= s) then Err
    else
      match ReadRow(s[2..])
      case Fail => Err
      case Got(row, rest) =>
        if rest == ")" then Ok([row])
        else if "), " <= rest then
          match ReadRows(rest[3..])
          case Err => Err
          case Ok(rows) => Ok([row] + rows)
        else Err
  }

  ghost predicate NoQuote(row: seq<string>) {
    forall i, k | 0 <= i < |row| && 0 <= k < |row[i]| :: row[i][k] != '\''
  }

  lemma ReadQuotedBack(v: string, rest: string)
    requires forall k | 0 <= k < |v| :: v[k] != '\''
    ensures ReadQuoted(Quoted(v) + rest) == Got(v, rest)
  {
    var s := Quoted(v) + rest;
    var t := s[1..];
    assert t == v + "'" + rest;
    assert t[|v|] == '\'' && forall i | 0 <= i < |v| :: t[i] == v[i];
    var k := FirstOf(t, '\'');
    assert k == |v|;
    assert t[..k] == v && t[k + 1..] == rest;
  }

  lemma NotComma(c: char, rest: string)
    requires c != ','
    ensures !(", " <= [c] + rest)
  {
    assert ([c] + rest)[0] == c && ", "[0] == ',';
  }

  lemma {:induction false} ReadRowBack(row: seq<string>, rest: string)
    requires row != [] && NoQuote(row) && !(", " <= rest)
    ensures ReadRow(RowText(row) + rest) == Got(row, rest)
  {
    var v, more := row[0], row[1..];
    if more == [] {
      assert RowText(row) == Quoted(v) && row == [v];
      ReadQuotedBack(v, rest);
    } else {
      var tail := RowText(more) + rest;
      RowTextStep(v, more, rest);
      ReadQuotedBack(v, ", " + tail);
      assert (", " + tail)[2..] == tail;
      ReadRowBack(more, rest);
      assert row == [v] + more;
    }
  }

  lemma RowTextStep(v: string, more: seq<string>, rest: string)
    requires more != []
    ensures RowText([v] + more) + rest == Quoted(v) + (", " + (RowText(more) + rest))
  {
    var row := [v] + more;
    assert QuotedAll(row)[1..] == QuotedAll(more) by {
      assert row[1..] == more;
    }
    assert RowText(row) == Quoted(v) + ", " + RowText(more);
    Reassociate(Quoted(v), ", ", RowText(more), rest);
  }

  lemma Reassociate(a: string, b: string, c: string, d: string)
    ensures a + b + c + d == a + (b + (c + d))
    ensures a + b + c == a + (b + c)
  {
  }

  ghost predicate Readable(rows: seq<seq<string>>) {
    forall i | 0 <= i < |rows| :: rows[i] != [] && NoQuote(rows[i])
  }

  /** Reading undoes writing: values may hold commas, spaces and brackets, only no quote. */
  lemma {:induction false} ReadRowsBack(rows: seq<seq<string>>)
    requires rows != [] && Readable(rows)
    ensures ReadRows(Join(Bracketed(RowTexts(rows)), ", ")) == Ok(rows)
  {
    var row, more := rows[0], rows[1..];
    if more == [] {
      OnlyRowText(rows, row);
      LastRow(row);
    } else {
      var tail := Join(Bracketed(RowTexts(more)), ", ");
      FirstRowText(rows, row, more, tail);
      ReadableTail(rows);
      ReadRowsBack(more);
      NextRow(row, tail, more);
    }
  }

  lemma OnlyRowText(rows: seq<seq<string>>, row: seq<string>)
    requires |rows| == 1 && rows[0] == row
    ensures rows == [row] && Join(Bracketed(RowTexts(rows)), ", ") == "( " + RowText(row) + ")"
  {
  }

  lemma FirstRowText(rows: seq<seq<string>>, row: seq<string>, more: seq<seq<string>>, tail: string)
    requires rows != [] && row == rows[0] && more == rows[1..] != []
    requires tail == Join(Bracketed(RowTexts(more)), ", ")
    ensures Join(Bracketed(RowTexts(rows)), ", ") == "( " + RowText(row) + ")" + ", " + tail
  {
    var first, texts := RowText(row), RowTexts(more);
    assert RowTexts(rows) == [first] + texts;
    HeadTail(first, texts);
    HeadTail("( " + first + ")", Bracketed(texts));
  }

  lemma HeadTail<T>(x: T, xs: seq<T>)
    ensures ([x] + xs)[0] == x && ([x] + xs)[1..] == xs
  {
  }

  lemma ReadableTail(rows: seq<seq<string>>)
    requires rows != [] && Readable(rows)
    ensures Readable(rows[1..]) && rows == [rows[0]] + rows[1..]
  {
    assert forall i | 0 <= i < |rows| - 1 :: rows[1..][i] == rows[i + 1];
  }

  lemma LastRow(row: seq<string>)
    requires row != [] && NoQuote(row)
    ensures ReadRows("( " + RowText(row) + ")") == Ok([row])
  {
    var s := "( " + RowText(row) + ")";
    assert s[2..] == RowText(row) + ")" && s[..2] == "( ";
    NotComma(')', "");
    assert [')'] + "" == ")";
    ReadRowBack(row, ")");
  }

  lemma ReadRowsStep(s: string, row: seq<string>, rest: string, more: seq<seq<string>>)
    requires "( " <= s && ReadRow(s[2..]) == Got(row, rest)
    requires rest != ")" && "), " <= rest && ReadRows(rest[3..]) == Ok(more)
    ensures ReadRows(s) == Ok([row] + more)
  {
  }

  lemma NextRow(row: seq<string>, tail: string, more: seq<seq<string>>)
    requires row != [] && NoQuote(row) && ReadRows(tail) == Ok(more)
    ensures ReadRows("( " + RowText(row) + ")" + ", " + tail) == Ok([row] + more)
  {
    var rest := ")" + (", " + tail);
    NextRowText(RowText(row), tail);
    NotComma(')', ", " + tail);
    ReadRowBack(row, rest);
    ReadRowsStep("( " + RowText(row) + ")" + ", " + tail, row, rest, more);
  }

  lemma NextRowText(text: string, tail: string)
    ensures var s, rest := "( " + text + ")" + ", " + tail, ")" + (", " + tail);
            && "( " <= s && s[2..] == text + rest
            && "), " <= rest && rest != ")" && rest[3..] == tail
  {
    var rest := ")" + (", " + tail);
    assert rest == "), " + tail && |rest| > 1;
    Reassociate("( " + text, ")", ", ", tail);
    Reassociate("( ", text, "", rest);
    assert ")" + (", " + tail) == rest && "" + rest == rest;
  }

  lemma PrependNoQuote(v: string, vs: seq<string>)
    requires '\'' !in v && NoQuote(vs)
    ensures NoQuote([v] + vs)
  {
    var row := [v] + vs;
    forall i, k | 0 <= i < |row| && 0 <= k < |row[i]|
      ensures row[i][k] != '\''
    {
      assert row[i] == if i == 0 then v else vs[i - 1];
    }
  }

  lemma ValueReadHasNoQuote(s: string)
    ensures ReadQuoted(s).Got? ==> '\'' !in ReadQuoted(s).value
  {
  }

  lemma {:induction false} RowReadHasNoQuote(s: string)
    ensures ReadRow(s).Got? ==> ReadRow(s).value != [] && NoQuote(ReadRow(s).value)
    decreases |s|
  {
    ValueReadHasNoQuote(s);
    match ReadQuoted(s)
    case Fail =>
    case Got(v, rest) =>
      PrependNoQuote(v, []);
      assert [v] + [] == [v];
      if ", " <= rest {
        RowReadHasNoQuote(rest[2..]);
        match ReadRow(rest[2..])
        case Fail =>
        case Got(vs, _) => PrependNoQuote(v, vs);
      }
  }

  /** Whatever the reader returns holds no quote. */
  lemma {:induction false} RowsReadHaveNoQuote(s: string)
    ensures ReadRows(s).Ok? ==> Readable(ReadRows(s).value)
    decreases |s|
  {
    if "( " <= s {
      RowReadHasNoQuote(s[2..]);
      match ReadRow(s[2..])
      case Fail =>
      case Got(row, rest) =>
        if rest != ")" && "), " <= rest {
          RowsReadHaveNoQuote(rest[3..]);
        }
    }
  }

  // ----- the reader accepts nothing but what the writer writes

  lemma ReadQuotedWritten(s: string)
    ensures ReadQuoted(s).Got? ==> s == Quoted(ReadQuoted(s).value) + ReadQuoted(s).rest
  {
    if ReadQuoted(s).Got? {
      var t := s[1..];
      var k := FirstOf(t, '\'');
      QuotedParts(s, t, t[..k], t[k + 1..]);
    }
  }

  lemma QuotedParts(s: string, t: string, v: string, rest: string)
    requires s != "" && s[0] == '\'' && t == s[1..]
    requires |v| < |t| && t[|v|] == '\'' && v == t[..|v|] && rest == t[|v| + 1..]
    ensures s == Quoted(v) + rest
  {
    assert s == ['\''] + t && t == v + ['\''] + rest;
    Reassociate(['\''], v, ['\''], rest);
  }

  lemma {:induction false} ReadRowWritten(s: string)
    ensures ReadRow(s).Got? ==> ReadRow(s).value != [] && s == RowText(ReadRow(s).value) + ReadRow(s).rest
    decreases |s|
  {
    ReadQuotedWritten(s);
    match ReadQuoted(s)
    case Fail =>
    case Got(v, rest) =>
      if ", " <= rest {
        ReadRowWritten(rest[2..]);
        match ReadRow(rest[2..])
        case Fail =>
        case Got(vs, rest') =>
          FirstOfRow(s, v, rest, vs, rest');
      } else {
        OnlyOfRow(v);
      }
  }

  lemma FirstOfRow(s: string, v: string, after: string, vs: seq<string>, rest: string)
    requires s == Quoted(v) + after && ", " <= after
    requires vs != [] && after[2..] == RowText(vs) + rest
    ensures s == RowText([v] + vs) + rest
  {
    assert after == ", " + after[2..];
    RowTextStep(v, vs, rest);
  }

  lemma OnlyOfRow(v: string)
    ensures RowText([v]) == Quoted(v)
  {
    assert QuotedAll([v]) == [Quoted(v)];
  }

  lemma {:induction false} ReadRowsWritten(s: string)
    ensures ReadRows(s).Ok? ==> ReadRows(s).value != [] && s == Join(Bracketed(RowTexts(ReadRows(s).value)), ", ")
    decreases |s|
  {
    if ReadRows(s).Ok? {
      var body := s[2..];
      assert s == "( " + body;
      ReadRowWritten(body);
      var row, rest := ReadRow(body).value, ReadRow(body).rest;
      if rest == ")" {
        assert Bracketed(RowTexts([row])) == ["( " + RowText(row) + ")"];
        Reassociate("( ", RowText(row), ")", "");
      } else {
        var tail := rest[3..];
        ReadRowsWritten(tail);
        var more := ReadRows(tail).value;
        assert rest == "), " + tail;
        RowsTextStep(row, more, tail);
      }
    }
  }

  lemma RowsTextStep(row: seq<string>, more: seq<seq<string>>, tail: string)
    requires more != [] && tail == Join(Bracketed(RowTexts(more)), ", ")
    ensures Join(Bracketed(RowTexts([row] + more)), ", ") == "( " + (RowText(row) + ("), " + tail))
  {
    var b := Bracketed(RowTexts([row] + more));
    assert ([row] + more)[1..] == more;
    assert b[0] == "( " + RowText(row) + ")" && b[1..] == Bracketed(RowTexts(more));
    assert ")" + ", " == "), ";
    Reassociate("( " + RowText(row), ")", ", ", tail);
    Reassociate("( ", RowText(row), ")" + ", ", tail);
    Reassociate(")", ", ", tail, "");
  }

  // ----- reading the whole statement

  datatype Statement = Statement(table: string, columns: seq<string>, rows: seq<seq<string>>)

  function ReadNames(s: string): (r: Result<seq<string>>)
    decreases |s|
  {
    var k := FirstOf(s, ',');
    if k == |s| then Ok([s])
    else if !(", " <= s[k..]) then Err
    else
      match ReadNames(s[k + 2..])
      case Err => Err
      case Ok(names) => Ok([s[..k]] + names)
  }

  /** INSERT INTO, the table's name up to the first bracket, the column names up to the closing one, VALUES,
      and the rows. */
  function ReadStatement(s: string): Result<Statement> {
    if !("INSERT INTO " <= s) then Err
    else
      var t := s[|"INSERT INTO "|..];
      var k := FirstOf(t, '(');
      if k == 0 || !(" ( " <= t[k - 1..]) then Err
      else
        var u := t[k + 2..];
        var m := FirstOf(u, ')');
        if !(") VALUES " <= u[m..]) then Err
        else
          match ReadNames(u[..m])
          case Err => Err
          case Ok(names) =>
            match ReadRows(u[m + |") VALUES "|..])
            case Err => Err
            case Ok(rows) => Ok(Statement(t[..k - 1], names, rows))
  }

  /** Names the reader can tell apart from the brackets and commas around them. */
  ghost predicate PlainNames(table: string, columns: seq<string>) {
    '(' !in table && forall i | 0 <= i < |columns| :: ',' !in columns[i] && ')' !in columns[i]
  }

  lemma FirstOfAfter(s: string, before: string, c: char, after: string)
    requires c !in before && s == before + [c] + after
    ensures FirstOf(s, c) == |before|
  {
    assert forall i | 0 <= i < |before| :: s[i] == before[i];
    assert s[|before|] == c;
  }

  lemma NoneOf(s: string, c: char)
    requires c !in s
    ensures FirstOf(s, c) == |s|
  {
  }

  lemma {:induction false} ReadNamesBack(names: seq<string>)
    requires names != [] && forall i | 0 <= i < |names| :: ',' !in names[i]
    ensures ReadNames(Join(names, ", ")) == Ok(names)
  {
    var s, name, more := Join(names, ", "), names[0], names[1..];
    if more == [] {
      assert names == [name];
      NoneOf(name, ',');
    } else {
      var tail := Join(more, ", ");
      ReadNamesBack(more);
      FirstName(s, name, tail);
      assert names == [name] + more;
    }
  }

  lemma FirstName(s: string, name: string, tail: string)
    requires ',' !in name && s == name + ", " + tail
    ensures FirstOf(s, ',') == |name| < |s| && s[..|name|] == name
    ensures ", " <= s[|name|..] && s[|name| + 2..] == tail
  {
    Around(s, name, ", ", tail);
    Spread(name, "", [','], " ", tail, ", ");
    assert name + "" == name;
    FirstOfAfter(s, name, ',', " " + tail);
  }

  lemma Parts(s: string, before: string, after: string)
    requires s == before + after
    ensures s[..|before|] == before && s[|before|..] == after
  {
  }

  lemma {:induction false} JoinHoldsNo(names: seq<string>, c: char)
    requires c !in ", " && forall i | 0 <= i < |names| :: c !in names[i]
    ensures c !in Join(names, ", ")
  {
    if |names| > 1 {
      JoinHoldsNo(names[1..], c);
    }
  }

  /** The reader finds the table, the columns and the text of the rows. */
  lemma ReadStatementBack(table: string, columns: seq<string>, values: string)
    requires columns != [] && PlainNames(table, columns)
    ensures ReadStatement(Head(table, columns) + values) ==
            match ReadRows(values) case Err => Err case Ok(rows) => Ok(Statement(table, columns, rows))
  {
    var list, s := Join(columns, ", "), Head(table, columns) + values;
    var u := list + ") VALUES " + values;
    var t := table + " ( " + u;
    StatementParts(s, table, list, values, t, u);
    TableFirst(t, table, u);
    JoinHoldsNo(columns, ')');
    ListFirst(u, list, values);
    ReadNamesBack(columns);
  }

  lemma StatementParts(s: string, table: string, list: string, values: string, t: string, u: string)
    requires s == "INSERT INTO " + table + " ( " + list + ") VALUES " + values
    requires u == list + ") VALUES " + values && t == table + " ( " + u
    ensures "INSERT INTO " <= s && s[|"INSERT INTO "|..] == t
  {
    assert s == "INSERT INTO " + t;
  }

  lemma TableFirst(t: string, table: string, u: string)
    requires '(' !in table && t == table + " ( " + u
    ensures FirstOf(t, '(') == |table| + 1 && |t| > |table| + 2
    ensures t[..|table|] == table && " ( " <= t[|table|..] && t[|table| + 3..] == u
  {
    Spread(table, " ", ['('], " ", u, " ( ");
    FirstOfAfter(t, table + " ", '(', " " + u);
    Around(t, table, " ( ", u);
  }

  lemma Around(s: string, before: string, middle: string, after: string)
    requires s == before + middle + after
    ensures |s| == |before| + |middle| + |after|
    ensures s[..|before|] == before && middle <= s[|before|..] && s[|before| + |middle|..] == after
  {
    Reassociate(before, middle, after, "");
    Parts(s, before, middle + after);
    Parts(s, before + middle, after);
  }

  lemma Spread(a: string, x: string, y: string, z: string, b: string, m: string)
    requires m == x + y + z
    ensures a + m + b == (a + x) + y + (z + b)
  {
  }

  lemma ListFirst(u: string, list: string, values: string)
    requires ')' !in list && u == list + ") VALUES " + values
    ensures FirstOf(u, ')') == |list| && u[..|list|] == list
    ensures ") VALUES " <= u[|list|..] && u[|list| + |") VALUES "|..] == values
  {
    Around(u, list, ") VALUES ", values);
    Spread(list, "", [')'], " VALUES ", values, ") VALUES ");
    assert list + "" == list;
    FirstOfAfter(u, list, ')', " VALUES " + values);
  }

  /** The whole copy, from query result to statement; what `select_data` returns is not looked at.  Reading the VALUES part gives the table as found
      exactly when no value holds a quote, since nothing escapes quotes; with distinct column names the
      table as found is the table. */
  method CopyTable(table: string, columns: seq<string>, rows: seq<seq<string>>) returns (r: Outcome)
    requires Rectangular(columns, rows)
    ensures columns == [] ==> r == Thrown
    ensures columns != [] && rows == [] ==>
              match EraseFromLastComma("INSERT INTO " + table + " ( " + Join(columns, ", ") + ") VALUES ")
              case Err => r == Reported
              case Ok(text) => r == Send(text)
    ensures columns != [] && rows != [] ==>
              r == Send("INSERT INTO " + table + " ( " + Join(columns, ", ") + ") VALUES "
                        + Join(Bracketed(RowTexts(AllByName(columns, rows))), ", "))
    ensures columns != [] && rows != [] ==>
              (ReadRows(r.sql[|"INSERT INTO " + table + " ( " + Join(columns, ", ") + ") VALUES "|..]) == Ok(AllByName(columns, rows))
               <==> forall i | 0 <= i < |rows| :: NoQuote(ByName(columns, rows[i])))
    ensures columns != [] && rows != [] && PlainNames(table, columns) ==>
              (ReadStatement(r.sql) == Ok(Statement(table, columns, AllByName(columns, rows)))
               <==> forall i | 0 <= i < |rows| :: NoQuote(ByName(columns, rows[i])))
    ensures Distinct(columns) ==> AllByName(columns, rows) == rows
  {
    TableAsFound(columns, rows);
    var data := SelectData(columns, rows);
    r := InsertStatement(table, columns, if data.Ok? then data.value else []);
    if columns != [] && rows != [] {
      TableRead(Head(table, columns), columns, rows, r.sql);
      if PlainNames(table, columns) {
        ReadStatementBack(table, columns, Join(Bracketed(data.value), ", "));
      }
    }
  }

  lemma TableRead(head: string, columns: seq<string>, rows: seq<seq<string>>, sql: string)
    requires Rectangular(columns, rows) && columns != [] && rows != []
    requires sql == head + Join(Bracketed(RowTexts(AllByName(columns, rows))), ", ")
    ensures head <= sql
    ensures ReadRows(sql[|head|..]) == Ok(AllByName(columns, rows))
            <==> forall i | 0 <= i < |rows| :: NoQuote(ByName(columns, rows[i]))
  {
    var found := AllByName(columns, rows);
    AfterHead(head, Join(Bracketed(RowTexts(found)), ", "), sql);
    ReadBackIff(found);
  }

  lemma AfterHead(head: string, tail: string, s: string)
    requires s == head + tail
    ensures head <= s && s[|head|..] == tail
  {
  }

  lemma TableAsFound(columns: seq<string>, rows: seq<seq<string>>)
    requires Rectangular(columns, rows)
    ensures Distinct(columns) ==> AllByName(columns, rows) == rows
  {
    if Distinct(columns) {
      forall i | 0 <= i < |rows|
        ensures AllByName(columns, rows)[i] == rows[i]
      {
        ByNameIsRow(columns, rows[i]);
      }
    }
  }

  /** What is written reads back exactly when no value holds a quote. */
  lemma ReadBackIff(rows: seq<seq<string>>)
    requires rows != [] && forall i | 0 <= i < |rows| :: rows[i] != []
    ensures ReadRows(Join(Bracketed(RowTexts(rows)), ", ")) == Ok(rows)
            <==> forall i | 0 <= i < |rows| :: NoQuote(rows[i])
  {
    var text := Join(Bracketed(RowTexts(rows)), ", ");
    RowsReadHaveNoQuote(text);
    if Readable(rows) {
      ReadRowsBack(rows);
    } else {
      assert exists i :: 0 <= i < |rows| && !NoQuote(rows[i]);
      assert ReadRows(text) != Ok(rows);
    }
  }
  /** With a quote in a value the text can be that of other values ... */
  lemma TwoValuesInOne(a: string, b: string)
    ensures RowText([a + "', '" + b]) == RowText([a, b])
  {
    OnlyOfRow(a + "', '" + b);
    OnlyOfRow(b);
    RowTextStep(a, [b], "");
    assert [a] + [b] == [a, b] && RowText([a, b]) + "" == RowText([a, b]);
    assert RowText([b]) + "" == Quoted(b);
    assert Quoted(a + "', '" + b) == Quoted(a) + (", " + Quoted(b));
  }

  /** ... or of none: the value that is one quote. */
  lemma LoneQuote()
    ensures RowText(["'"]) == "'''" && ReadRows("( ''')") == Err
  {
    OnlyOfRow("'");
    var s, rest := "''')", "')";
    assert s[1..] == "'')" && FirstOf(s[1..], '\'') == 0;
    assert s[1..][..0] == "" && s[1..][1..] == rest;
    assert ReadQuoted(s) == Got("", rest);
    assert rest[0] == '\'' && ", "[0] == ',' && "), "[0] == ')' && ")"[0] == ')';
    assert ReadRow(s) == Got([""], rest);
    assert ("( " + s)[2..] == s && "( " + s == "( ''')";
  }
}
