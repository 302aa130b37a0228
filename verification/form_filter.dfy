/** The form-type filter in `main` (downloader/main.go:49-51): of all filings listed
    for the period, keep the insider-trading reports, form 4 and its amendment 4/A,
    in the order the index lists them. */
module FormFilter {
  import opened Seqs
  import opened MasterIndex

  /** A form 4 or an amended form 4. The comparison is exact: `"4 "`, `"40"` or `"4/a"`
      are other forms. */
  predicate IsForm4(r: DailyFilingsRow)
    ensures IsForm4(r) ==> |r.formType| > 0 && r.formType[0] == '4'
    ensures IsForm4(r) ==> |r.formType| == 1 || r.formType[1..] == "/A"
  {
    r.formType == "4" || r.formType == "4/A"
  }

  /** The form 4 and 4/A filings of `rows`, in their original order: the result is
      drawn from `rows` in order, holds only such filings, and holds each of them as
      often as `rows` does. */
  function FilterForm4(rows: seq<DailyFilingsRow>): (kept: seq<DailyFilingsRow>)
    ensures IsSubsequence(kept, rows)
    ensures forall i :: 0 <= i < |kept| ==> IsForm4(kept[i])
    ensures forall r :: IsForm4(r) ==> multiset(kept)[r] == multiset(rows)[r]
  {
    FilterIsSubsequence(rows, IsForm4);
    forall r | IsForm4(r)
      ensures multiset(Filter(rows, IsForm4))[r] == multiset(rows)[r]
    {
      FilterKeepsAll(rows, IsForm4, r);
    }
    Filter(rows, IsForm4)
  }

  /** A filing is in the result exactly when it is a form 4 or 4/A listed in the input. */
  lemma FilterForm4Membership(rows: seq<DailyFilingsRow>, r: DailyFilingsRow)
    ensures r in FilterForm4(rows) <==> r in rows && IsForm4(r)
  {
    var kept := FilterForm4(rows);
    if IsForm4(r) {
      assert multiset(kept)[r] == multiset(rows)[r];
      assert r in kept <==> r in multiset(kept);
    }
  }

  /** The filter treats the filings one at a time: filtering a concatenation filters
      each part. */
  lemma FilterForm4Concat(a: seq<DailyFilingsRow>, b: seq<DailyFilingsRow>)
    ensures FilterForm4(a + b) == FilterForm4(a) + FilterForm4(b)
  {
    FilterConcat(a, b, IsForm4);
  }

  /** Filtering twice is filtering once. */
  lemma {:induction false} FilterForm4Idempotent(rows: seq<DailyFilingsRow>)
    ensures FilterForm4(FilterForm4(rows)) == FilterForm4(rows)
    decreases |rows|
  {
    if |rows| > 0 {
      FilterForm4Idempotent(rows[1..]);
      assert rows == [rows[0]] + rows[1..];
      FilterForm4Concat([rows[0]], rows[1..]);
      FilterForm4Concat(FilterForm4([rows[0]]), FilterForm4(rows[1..]));
      assert [rows[0]][1..] == [];
    }
  }

  /** A filing of any other form is dropped wherever it stands. */
  lemma OtherFormsDropped(a: seq<DailyFilingsRow>, r: DailyFilingsRow, b: seq<DailyFilingsRow>)
    requires !IsForm4(r)
    ensures FilterForm4(a + [r] + b) == FilterForm4(a + b)
  {
    FilterConcat(a + [r], b, IsForm4);
    FilterConcat(a, [r], IsForm4);
    FilterSingle(r, IsForm4);
    FilterConcat(a, b, IsForm4);
  }

  /** Form types only: of filings of forms 4, 4/A, 3 and 5, the first two are kept. */
  lemma FilterForm4Example(a: DailyFilingsRow, b: DailyFilingsRow, c: DailyFilingsRow, d: DailyFilingsRow)
    requires a.formType == "4" && b.formType == "4/A" && c.formType == "3" && d.formType == "5"
    ensures FilterForm4([a, b, c, d]) == [a, b]
  {
    assert IsForm4(a) && IsForm4(b);
    assert c.formType[0] != '4' && d.formType[0] != '4';
    KeepTwoDropTwo(a, b, c, d);
  }

  /** Two kept filings followed by two dropped ones leave the first two. */
  lemma KeepTwoDropTwo(a: DailyFilingsRow, b: DailyFilingsRow, c: DailyFilingsRow, d: DailyFilingsRow)
    requires IsForm4(a) && IsForm4(b) && !IsForm4(c) && !IsForm4(d)
    ensures FilterForm4([a, b, c, d]) == [a, b]
  {
    assert [a, b, c, d][1..] == [b, c, d];
    assert [b, c, d][1..] == [c, d];
    DropTwo(c, d);
    assert Filter([b, c, d], IsForm4) == [b] + Filter([c, d], IsForm4);
    assert Filter([a, b, c, d], IsForm4) == [a] + Filter([b, c, d], IsForm4);
  }

  /** Two filings of other forms leave nothing. */
  lemma DropTwo(c: DailyFilingsRow, d: DailyFilingsRow)
    requires !IsForm4(c) && !IsForm4(d)
    ensures FilterForm4([c, d]) == []
  {
    assert [c, d][1..] == [d];
    FilterSingle(d, IsForm4);
  }
}
