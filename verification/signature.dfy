/** The deduplication key of a route: `get_path_signature` inside `find_route`.
    The id list of a path is thinned so that no id occurs three times in a row,
    and the kept ids are written in decimal and joined with commas. */
module PathSignature {

  /** No id occurs three times in a row. */
  predicate NoTripleRun(s: seq<int>)
  {
    forall i | 0 <= i < |s| - 2 :: s[i] != s[i + 1] || s[i + 1] != s[i + 2]
  }

  /** `a` is obtained from `b` by deleting some elements. */
  predicate IsSubsequence(a: seq<int>, b: seq<int>)
    decreases |b|
  {
    || a == []
    || (&& b != []
        && (|| (a[|a| - 1] == b[|b| - 1] && IsSubsequence(a[..|a| - 1], b[..|b| - 1]))
            || IsSubsequence(a, b[..|b| - 1])))
  }

  /** The ids the signature keeps (`processed_ids`): walking the path from the
      front, an id is appended unless the last two kept ids both equal it. */
  function CapRuns(ids: seq<int>): (kept: seq<int>)
    ensures |kept| <= |ids|
    ensures NoTripleRun(kept)
    ensures ids != [] ==> kept != [] && kept[|kept| - 1] == ids[|ids| - 1]
  {
    if ids == [] then []
    else
      var before := CapRuns(ids[..|ids| - 1]);
      var id := ids[|ids| - 1];
      if |before| < 2 || id != before[|before| - 1] || id != before[|before| - 2] then before + [id]
      else before
  }

  lemma {:induction false} CapRunsIsSubsequence(ids: seq<int>)
    ensures IsSubsequence(CapRuns(ids), ids)
  {
    if ids != [] {
      var pre := ids[..|ids| - 1];
      CapRunsIsSubsequence(pre);
      var kept := CapRuns(ids);
      if kept == CapRuns(pre) + [ids[|ids| - 1]] {
        assert kept[..|kept| - 1] == CapRuns(pre);
      }
    }
  }

  /** A path without three equal consecutive ids is its own signature list. */
  lemma {:induction false} CapRunsKeepsRunFree(ids: seq<int>)
    requires NoTripleRun(ids)
    ensures CapRuns(ids) == ids
  {
    if ids != [] {
      var pre := ids[..|ids| - 1];
      var id := ids[|ids| - 1];
      NoTripleRunPrefix(ids);
      CapRunsKeepsRunFree(pre);
      if |pre| >= 2 {
        assert ids[|ids| - 3] != ids[|ids| - 2] || ids[|ids| - 2] != ids[|ids| - 1];
        assert pre[|pre| - 1] == ids[|ids| - 2] && pre[|pre| - 2] == ids[|ids| - 3];
      }
      assert CapRuns(ids) == pre + [id];
      assert pre + [id] == ids;
    }
  }

  lemma NoTripleRunPrefix(ids: seq<int>)
    requires ids != [] && NoTripleRun(ids)
    ensures NoTripleRun(ids[..|ids| - 1])
  {
    var pre := ids[..|ids| - 1];
    forall i | 0 <= i < |pre| - 2
      ensures pre[i] != pre[i + 1] || pre[i + 1] != pre[i + 2]
    {
      assert pre[i] == ids[i] && pre[i + 1] == ids[i + 1] && pre[i + 2] == ids[i + 2];
    }
  }

  lemma CapRunsIdempotent(ids: seq<int>)
    ensures CapRuns(CapRuns(ids)) == CapRuns(ids)
  {
    CapRunsKeepsRunFree(CapRuns(ids));
  }

  /** One maximal block of equal consecutive ids. */
  datatype Run = Run(id: int, length: nat)

  /** Run-length encoding of an id list, built from the back. */
  function Runs(s: seq<int>): seq<Run>
  {
    if s == [] then []
    else
      Extend(Runs(s[..|s| - 1]), s[|s| - 1])
  }

  function CapRun(r: Run): Run
  {
    Run(r.id, if r.length < 2 then r.length else 2)
  }

  /** Every run shortened to at most two ids. */
  function Capped(rs: seq<Run>): seq<Run>
  {
    if rs == [] then [] else Capped(rs[..|rs| - 1]) + [CapRun(rs[|rs| - 1])]
  }

  lemma {:induction false} RunsLast(s: seq<int>)
    requires s != []
    ensures Runs(s) != []
    ensures Runs(s)[|Runs(s)| - 1].id == s[|s| - 1]
    ensures Runs(s)[|Runs(s)| - 1].length >= 1
    ensures Runs(s)[|Runs(s)| - 1].length >= 2 <==> |s| >= 2 && s[|s| - 2] == s[|s| - 1]
  {
    var pre := s[..|s| - 1];
    assert Runs(s) == Extend(Runs(pre), s[|s| - 1]);
    ExtendLast(Runs(pre), s[|s| - 1]);
    if pre != [] {
      RunsLast(pre);
      assert s[|s| - 2] == pre[|pre| - 1];
    } else {
      assert Runs(pre) == [];
    }
  }

  /** The last run after appending `id`: a run of `id`, one longer than the
      previous last run when that was a run of `id` too. */
  lemma ExtendLast(rs: seq<Run>, id: int)
    ensures var e := Extend(rs, id);
      && e != [] && e[|e| - 1].id == id
      && e[|e| - 1].length == if rs != [] && rs[|rs| - 1].id == id then rs[|rs| - 1].length + 1 else 1
  {
  }

  /** Appending an id either lengthens the last run or opens a new one. */
  function Extend(rs: seq<Run>, id: int): seq<Run>
  {
    if rs != [] && rs[|rs| - 1].id == id then rs[..|rs| - 1] + [Run(id, rs[|rs| - 1].length + 1)]
    else rs + [Run(id, 1)]
  }

  lemma RunsSnoc(s: seq<int>, id: int)
    ensures Runs(s + [id]) == Extend(Runs(s), id)
  {
    assert (s + [id])[..|s|] == s;
  }

  lemma CappedSnoc(rs: seq<Run>, r: Run)
    ensures Capped(rs + [r]) == Capped(rs) + [CapRun(r)]
  {
    assert (rs + [r])[..|rs|] == rs;
  }

  /** `id` is dropped after `kept` exactly when the last two kept ids both equal it. */
  predicate DropsNext(kept: seq<int>, id: int)
  {
    |kept| >= 2 && id == kept[|kept| - 1] && id == kept[|kept| - 2]
  }

  lemma CapRunsSnoc(pre: seq<int>, id: int)
    ensures CapRuns(pre + [id]) == if DropsNext(CapRuns(pre), id) then CapRuns(pre) else CapRuns(pre) + [id]
  {
    assert (pre + [id])[..|pre|] == pre;
  }

  /** The drop test reads off the last run of the kept list. */
  lemma DropsNextByRuns(kept: seq<int>, id: int)
    ensures DropsNext(kept, id) <==> Runs(kept) != [] && Runs(kept)[|Runs(kept)| - 1].id == id && Runs(kept)[|Runs(kept)| - 1].length >= 2
  {
    if kept != [] {
      RunsLast(kept);
    }
  }

  /** Capping after appending an id equals appending to the capped runs, except
      that nothing is added once the last capped run holds two copies of the id. */
  lemma CappedExtend(R: seq<Run>, id: int)
    requires R != [] ==> R[|R| - 1].length >= 1
    ensures var C := Capped(R);
      Capped(Extend(R, id)) ==
        if C != [] && C[|C| - 1].id == id && C[|C| - 1].length >= 2 then C else Extend(C, id)
  {
    if R == [] {
      CappedSnoc(R, Run(id, 1));
    } else if R[|R| - 1].id != id {
      CappedExtendNewRun(R, id);
    } else {
      CappedExtendSameRun(R, id);
    }
  }

  lemma CappedExtendNewRun(R: seq<Run>, id: int)
    requires R != [] && R[|R| - 1].id != id
    ensures Capped(Extend(R, id)) == Extend(Capped(R), id)
    ensures Capped(R)[|Capped(R)| - 1].id != id
  {
    CappedSnoc(R, Run(id, 1));
    var front := R[..|R| - 1];
    assert R == front + [R[|R| - 1]];
    CappedSnoc(front, R[|R| - 1]);
  }

  lemma CappedExtendSameRun(R: seq<Run>, id: int)
    requires R != [] && R[|R| - 1].id == id && R[|R| - 1].length >= 1
    ensures var C := Capped(R);
      && C != [] && C[|C| - 1].id == id
      && Capped(Extend(R, id)) == if C[|C| - 1].length >= 2 then C else Extend(C, id)
  {
    var last := R[|R| - 1];
    var front := R[..|R| - 1];
    assert R == front + [last];
    CappedSnoc(front, last);
    var C := Capped(R);
    assert C == Capped(front) + [CapRun(last)];
    assert C[..|C| - 1] == Capped(front);
    assert Extend(R, id) == front + [Run(id, last.length + 1)];
    CappedSnoc(front, Run(id, last.length + 1));
  }

  /** One step of the induction below. */
  lemma CapRunsStep(pre: seq<int>, id: int)
    requires Runs(CapRuns(pre)) == Capped(Runs(pre))
    ensures Runs(CapRuns(pre + [id])) == Capped(Runs(pre + [id]))
  {
    var kept := CapRuns(pre);
    CapRunsSnoc(pre, id);
    DropsNextByRuns(kept, id);
    RunsSnoc(pre, id);
    if pre != [] {
      RunsLast(pre);
    }
    CappedExtend(Runs(pre), id);
    if !DropsNext(kept, id) {
      RunsSnoc(kept, id);
    }
  }

  /** The signature list has the runs of the path, each capped at length two. */
  lemma {:induction false} CapRunsCapsEveryRun(ids: seq<int>)
    ensures Runs(CapRuns(ids)) == Capped(Runs(ids))
  {
    if ids != [] {
      var pre := ids[..|ids| - 1];
      assert ids == pre + [ids[|ids| - 1]];
      CapRunsCapsEveryRun(pre);
      CapRunsStep(pre, ids[|ids| - 1]);
    }
  }

  // ----- The text of the signature: `','.join(str(id) for id in processed_ids)` -----

  predicate IsDigit(c: char)
  {
    '0' <= c <= '9'
  }

  function DigitChar(d: nat): (c: char)
    requires d < 10
    ensures IsDigit(c)
  {
    ('0' as int + d) as char
  }

  /** Decimal numeral of a natural number, most significant digit first. */
  function Decimal(n: nat): (s: string)
    ensures |s| >= 1
    ensures forall i | 0 <= i < |s| :: IsDigit(s[i])
  {
    if n < 10 then [DigitChar(n)] else Decimal(n / 10) + [DigitChar(n % 10)]
  }

  /** Python's `str` of an integer: a minus sign before negative numbers. */
  function IntText(i: int): (s: string)
    ensures s != []
    ensures ',' !in s
  {
    if i < 0 then "-" + Decimal(-i) else Decimal(i)
  }

  /** Python's `','.join(parts)`. */
  function Join(parts: seq<string>): (s: string)
    ensures parts != [] && parts[0] != [] ==> s != []
  {
    if parts == [] then ""
    else if |parts| == 1 then parts[0]
    else parts[0] + "," + Join(parts[1..])
  }

  /** The decimal text of each id. */
  function Fields(ids: seq<int>): (parts: seq<string>)
    ensures |parts| == |ids|
    ensures forall i | 0 <= i < |parts| :: ',' !in parts[i]
  {
    seq(|ids|, i requires 0 <= i < |ids| => IntText(ids[i]))
  }

  /** The signature string of a path's id list: it determines the kept ids. */
  function SignatureText(ids: seq<int>): (text: string)
    ensures DecodeSignature(text) == CapRuns(ids)
  {
    FieldsRoundTrip(CapRuns(ids));
    Join(Fields(CapRuns(ids)))
  }

  // ----- Reading a signature string back -----

  function DigitsValue(s: string): int
  {
    if s == [] then 0 else DigitsValue(s[..|s| - 1]) * 10 + (s[|s| - 1] as int - '0' as int)
  }

  function ParseInt(s: string): int
  {
    if s != [] && s[0] == '-' then -DigitsValue(s[1..]) else DigitsValue(s)
  }

  /** The comma-separated fields of a string (an empty field between adjacent commas). */
  function SplitFields(s: string): (fields: seq<string>)
    ensures |fields| >= 1
  {
    if s == [] then [[]]
    else
      var rest := SplitFields(s[1..]);
      if s[0] == ',' then [[]] + rest else [[s[0]] + rest[0]] + rest[1..]
  }

  function DecodeSignature(text: string): seq<int>
  {
    if text == [] then []
    else
      var fields := SplitFields(text);
      seq(|fields|, i requires 0 <= i < |fields| => ParseInt(fields[i]))
  }

  lemma {:induction false} DecimalRoundTrip(n: nat)
    ensures DigitsValue(Decimal(n)) == n
  {
    if n >= 10 {
      var s := Decimal(n);
      assert s[..|s| - 1] == Decimal(n / 10);
      DecimalRoundTrip(n / 10);
    }
  }

  lemma IntTextRoundTrip(i: int)
    ensures ParseInt(IntText(i)) == i
  {
    if i < 0 {
      var d := Decimal(-i);
      assert IntText(i) == "-" + d;
      assert ("-" + d)[0] == '-' && ("-" + d)[1..] == d;
      DecimalRoundTrip(-i);
    } else {
      var d := Decimal(i);
      assert IntText(i) == d;
      assert IsDigit(d[0]);
      DecimalRoundTrip(i);
    }
  }

  lemma {:induction false} SplitWithoutComma(p: string)
    requires ',' !in p
    ensures SplitFields(p) == [p]
  {
    if p != [] {
      SplitWithoutComma(p[1..]);
      assert [p[0]] + p[1..] == p;
    }
  }

  lemma {:induction false} SplitFirstField(p: string, t: string)
    requires ',' !in p
    ensures SplitFields(p + "," + t) == [p] + SplitFields(t)
  {
    var s := p + "," + t;
    if p == [] {
      assert s[1..] == t;
    } else {
      assert s[1..] == p[1..] + "," + t;
      SplitFirstField(p[1..], t);
      assert [p[0]] + p[1..] == p;
    }
  }

  lemma {:induction false} SplitJoin(parts: seq<string>)
    requires parts != []
    requires forall i | 0 <= i < |parts| :: ',' !in parts[i]
    ensures SplitFields(Join(parts)) == parts
  {
    if |parts| == 1 {
      SplitWithoutComma(parts[0]);
    } else {
      SplitJoin(parts[1..]);
      SplitFirstField(parts[0], Join(parts[1..]));
    }
  }

  /** Splitting the comma-joined decimal texts of ids and parsing each field gives the ids back. */
  lemma FieldsRoundTrip(ids: seq<int>)
    ensures DecodeSignature(Join(Fields(ids))) == ids
  {
    var parts := Fields(ids);
    if ids != [] {
      SplitJoin(parts);
      forall i | 0 <= i < |ids|
        ensures ParseInt(parts[i]) == ids[i]
      {
        IntTextRoundTrip(ids[i]);
      }
    }
  }

  /** Decoding the signature string gives back the kept id list. */
  lemma SignatureRoundTrip(ids: seq<int>)
    ensures DecodeSignature(SignatureText(ids)) == CapRuns(ids)
  {
    FieldsRoundTrip(CapRuns(ids));
  }

  /** Two paths share a signature string exactly when they share the kept id list. */
  lemma SignatureTextInjective(a: seq<int>, b: seq<int>)
    ensures SignatureText(a) == SignatureText(b) <==> CapRuns(a) == CapRuns(b)
  {
    SignatureRoundTrip(a);
    SignatureRoundTrip(b);
  }
}
