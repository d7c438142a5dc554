/**
 * The spreadsheet export: the rows ordered by first choice, then second
 * choice, written after a fixed header row. Ties keep storage order here;
 * SQLite's ORDER BY does not promise any particular order among ties.
 */
module Download {
  import opened Text
  import opened Records

  /** A spreadsheet cell: text, or the creation time (formatted by strftime). */
  datatype Cell = TextCell(text: string) | TimeCell(time: Timestamp)

  type Row = seq<Cell>

  /** The seven column titles, in order. */
  const Header: Row := [
    TextCell("姓名"), TextCell("学号"), TextCell("专业班级"), TextCell("第一志愿"),
    TextCell("第二志愿"), TextCell("自我介绍"), TextCell("报名时间")]

  /** The spreadsheet row for one registration. */
  function RowOf(r: Reg): (row: Row)
    ensures |row| == |Header|
    ensures row[3] == TextCell(r.firstChoice) && row[4] == TextCell(r.secondChoice)
  {
    [TextCell(r.name), TextCell(r.stuId), TextCell(r.majorClass), TextCell(r.firstChoice),
     TextCell(r.secondChoice), TextCell(r.intro), TimeCell(r.time)]
  }

  /** `ORDER BY first_choice, second_choice`: lexicographic on the pair. */
  predicate ChoiceLe(a: Reg, b: Reg)
  {
    if a.firstChoice == b.firstChoice then StrLe(a.secondChoice, b.secondChoice)
    else StrLe(a.firstChoice, b.firstChoice)
  }

  lemma ChoiceLeTotal(a: Reg, b: Reg)
    ensures ChoiceLe(a, b) || ChoiceLe(b, a)
  {
    StrLeTotal(a.firstChoice, b.firstChoice);
    StrLeTotal(a.secondChoice, b.secondChoice);
  }

  lemma ChoiceLeTransitive(a: Reg, b: Reg, c: Reg)
    requires ChoiceLe(a, b) && ChoiceLe(b, c)
    ensures ChoiceLe(a, c)
  {
    if a.firstChoice == b.firstChoice == c.firstChoice {
      StrLeTransitive(a.secondChoice, b.secondChoice, c.secondChoice);
    } else if a.firstChoice == b.firstChoice {
      assert StrLe(b.firstChoice, c.firstChoice);
    } else if b.firstChoice == c.firstChoice {
      assert StrLe(a.firstChoice, b.firstChoice);
    } else {
      StrLeTransitive(a.firstChoice, b.firstChoice, c.firstChoice);
      if a.firstChoice == c.firstChoice {
        StrLeAntisymmetric(a.firstChoice, b.firstChoice);
      }
    }
  }

  /** Each row is no greater than the next. */
  predicate Sorted(s: seq<Reg>)
  {
    forall k :: 0 <= k < |s| - 1 ==> ChoiceLe(s[k], s[k + 1])
  }

  /** `x` placed before the first row not below it. */
  function Insert(x: Reg, s: seq<Reg>): (r: seq<Reg>)
    ensures |r| == |s| + 1
    ensures multiset(r) == multiset(s) + multiset{x}
    ensures r[0] == x || (|s| > 0 && r[0] == s[0])
    ensures Sorted(s) ==> Sorted(r)
  {
    if |s| == 0 then [x]
    else if ChoiceLe(x, s[0]) then [x] + s
    else
      ChoiceLeTotal(x, s[0]);
      assert s == [s[0]] + s[1..];
      [s[0]] + Insert(x, s[1..])
  }

  /** The registrations in export order: sorted, and a permutation of the table. */
  function SortByChoices(s: seq<Reg>): (r: seq<Reg>)
    ensures |r| == |s|
    ensures multiset(r) == multiset(s)
    ensures Sorted(r)
  {
    if |s| == 0 then []
    else
      assert s == [s[0]] + s[1..];
      Insert(s[0], SortByChoices(s[1..]))
  }

  /** Sorted by neighbours means sorted over every pair of positions. */
  lemma {:induction false} SortedAllPairs(s: seq<Reg>, i: nat, j: nat)
    requires Sorted(s)
    requires i <= j < |s|
    ensures ChoiceLe(s[i], s[j])
    decreases j - i
  {
    if i == j {
      StrLeReflexive(s[i].secondChoice);
    } else {
      SortedAllPairs(s, i + 1, j);
      ChoiceLeTransitive(s[i], s[i + 1], s[j]);
    }
  }

  /** Inserting a row whose id the sorted rows lack keeps ids distinct. */
  lemma {:induction false} InsertKeepsUniqueIds(x: Reg, s: seq<Reg>)
    requires UniqueIds(s)
    requires forall j :: 0 <= j < |s| ==> s[j].stuId != x.stuId
    ensures UniqueIds(Insert(x, s))
  {
    if |s| > 0 && !ChoiceLe(x, s[0]) {
      InsertKeepsUniqueIds(x, s[1..]);
      var t := Insert(x, s[1..]);
      forall k | 0 <= k < |t| ensures t[k].stuId != s[0].stuId {
        assert t[k] in multiset(s[1..]) + multiset{x};
        if t[k] != x {
          assert t[k] in s[1..];
          var m :| 0 <= m < |s[1..]| && s[1..][m] == t[k];
          assert s[m + 1] == t[k];
        }
      }
      assert Insert(x, s) == [s[0]] + t;
    }
  }

  /** The export order keeps "at most one row per student id". */
  lemma {:induction false} SortKeepsUniqueIds(s: seq<Reg>)
    requires UniqueIds(s)
    ensures UniqueIds(SortByChoices(s))
  {
    if |s| > 0 {
      var rest := s[1..];
      assert UniqueIds(rest) by {
        forall i, j | 0 <= i < j < |rest| ensures rest[i].stuId != rest[j].stuId {
          assert rest[i] == s[i + 1] && rest[j] == s[j + 1];
        }
      }
      SortKeepsUniqueIds(rest);
      var sorted := SortByChoices(rest);
      forall k | 0 <= k < |sorted| ensures sorted[k].stuId != s[0].stuId {
        assert sorted[k] in multiset(rest);
        var m :| 0 <= m < |rest| && rest[m] == sorted[k];
        assert s[m + 1] == sorted[k];
      }
      InsertKeepsUniqueIds(s[0], sorted);
    }
  }

  /**
   * Exported data rows of a table with at most one row per student id show
   * pairwise distinct student ids (column two).
   */
  lemma ExportedIdsDistinct(s: seq<Reg>)
    requires UniqueIds(s)
    ensures forall i, j :: 0 <= i < j < |s| ==> RowOf(SortByChoices(s)[i])[1] != RowOf(SortByChoices(s)[j])[1]
  {
    SortKeepsUniqueIds(s);
  }
}
