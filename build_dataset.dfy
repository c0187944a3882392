/** The string, date and key-alignment rules of the dataset builder
    (python/src/oil_svar/build_dataset.py).

    Strings are sequences of characters; whitespace and case are the ASCII
    ones. Dates in the aligned table are integer keys ordered like the
    month-start timestamps they stand for. */
module BuildDataset {
  import opened Wrappers
  import Sequences

  // ---------------------------------------------------------------- strip and lower

  /** The ASCII characters Python's `str.strip` removes: tab, newline,
      vertical tab, form feed, carriage return, the four separators 0x1C–0x1F,
      and space. */
  predicate IsSpace(c: char) {
    9 <= c as int <= 13 || 28 <= c as int <= 32
  }

  predicate AllSpace(s: string) {
    forall k :: 0 <= k < |s| ==> IsSpace(s[k])
  }

  /** The number of leading whitespace characters. */
  function LeadingSpaces(s: string): (n: nat)
    ensures n <= |s| && AllSpace(s[..n])
    ensures n < |s| ==> !IsSpace(s[n])
  {
    if s == [] || !IsSpace(s[0]) then 0
    else
      var n := 1 + LeadingSpaces(s[1..]);
      assert s[..n] == [s[0]] + s[1..][..n - 1];
      n
  }

  /** Where the trailing whitespace begins. */
  function TrailingStart(s: string): (n: nat)
    ensures n <= |s| && AllSpace(s[n..])
    ensures n > 0 ==> !IsSpace(s[n - 1])
  {
    if s == [] || !IsSpace(s[|s| - 1]) then |s|
    else
      var n := TrailingStart(s[..|s| - 1]);
      assert s[n..] == s[..|s| - 1][n..] + [s[|s| - 1]];
      n
  }

  /** `str.strip()`: the text between leading and trailing whitespace. */
  function Strip(s: string): (r: string)
    ensures |r| > 0 ==> !IsSpace(r[0]) && !IsSpace(r[|r| - 1])
    ensures exists a, b :: 0 <= a <= b <= |s| && r == s[a..b] && AllSpace(s[..a]) && AllSpace(s[b..])
  {
    var a := LeadingSpaces(s);
    var b := a + TrailingStart(s[a..]);
    assert s[a..][TrailingStart(s[a..])..] == s[b..];
    assert b > a ==> s[b - 1] == s[a..][b - a - 1];
    s[a..b]
  }

  /** Text without leading or trailing whitespace is its own strip. */
  lemma StripUnpadded(s: string)
    requires |s| > 0 ==> !IsSpace(s[0]) && !IsSpace(s[|s| - 1])
    ensures Strip(s) == s
  {
  }

  function LowerChar(c: char): char {
    if 'A' <= c <= 'Z' then (c as int + 32) as char else c
  }

  /** `str.lower()` on ASCII letters. */
  function Lower(s: string): (r: string)
    ensures |r| == |s|
    ensures forall k :: 0 <= k < |s| ==> r[k] == LowerChar(s[k])
  {
    seq(|s|, k requires 0 <= k < |s| => LowerChar(s[k]))
  }

  predicate NoUpper(s: string) {
    forall k :: 0 <= k < |s| ==> !('A' <= s[k] <= 'Z')
  }

  lemma LowerNoUpper(s: string)
    requires NoUpper(s)
    ensures Lower(s) == s
  {
  }

  /** The date text is stripped, then lower-cased; doing either again changes nothing. */
  lemma NormalizeIdempotent(s: string)
    ensures Lower(Strip(Lower(Strip(s)))) == Lower(Strip(s))
  {
    var x := Lower(Strip(s));
    assert forall k :: 0 <= k < |x| ==> (IsSpace(x[k]) <==> IsSpace(Strip(s)[k]));
    StripUnpadded(x);
    assert NoUpper(x);
    LowerNoUpper(x);
  }

  // ---------------------------------------------------------------- replace

  /** The pattern occurs in s at index i. */
  predicate Occurs(s: string, pat: string, i: int) {
    0 <= i && i + |pat| <= |s| && s[i..i + |pat|] == pat
  }

  /** `str.replace(pat, rep)`: every non-overlapping occurrence of a non-empty
      pattern, scanned left to right, is replaced. */
  function ReplaceAll(s: string, pat: string, rep: string): (r: string)
    requires |pat| > 0
    ensures |rep| == |pat| ==> |r| == |s|
    ensures |rep| >= |pat| ==> |r| >= |s|
    decreases |s|
  {
    if |s| < |pat| then s
    else if s[..|pat|] == pat then rep + ReplaceAll(s[|pat|..], pat, rep)
    else [s[0]] + ReplaceAll(s[1..], pat, rep)
  }

  /** Where the pattern does not occur, replacing changes nothing. */
  lemma {:induction false} ReplaceAllNoMatch(s: string, pat: string, rep: string)
    requires |pat| > 0
    requires forall i :: !Occurs(s, pat, i)
    ensures ReplaceAll(s, pat, rep) == s
    decreases |s|
  {
    if |s| >= |pat| {
      assert !Occurs(s, pat, 0);
      forall i ensures !Occurs(s[1..], pat, i) {
        if 0 <= i && i + |pat| <= |s[1..]| {
          assert s[1..][i..i + |pat|] == s[i + 1..i + 1 + |pat|];
          assert !Occurs(s, pat, i + 1);
        }
      }
      ReplaceAllNoMatch(s[1..], pat, rep);
      assert [s[0]] + s[1..] == s;
    }
  }

  /** A four-character pattern ending in '-' cannot occur in text whose only
      dashes are among its first three characters. */
  lemma DashPatternAbsent(x: string, pat: string)
    requires |pat| == 4 && pat[3] == '-'
    requires forall m :: 3 <= m < |x| ==> x[m] != '-'
    ensures forall i :: !Occurs(x, pat, i)
  {
    forall i ensures !Occurs(x, pat, i) {
      if 0 <= i && i + |pat| <= |x| {
        assert x[i..i + |pat|][3] == x[i + 3];
      }
    }
  }

  /** One pass `replace("t-", "u-")` over "w-d" with three-letter tokens
      rewrites the token exactly when it is t. */
  lemma ReplaceTokenStep(w: string, d: string, t: string, u: string)
    requires |w| == 3 && |t| == 3 && '-' !in d
    ensures ReplaceAll(w + "-" + d, t + "-", u + "-") == (if w == t then u else w) + "-" + d
  {
    var s := w + "-" + d;
    var pat := t + "-";
    assert s[..4] == w + "-";
    if w == t {
      assert s[4..] == d;
      DashPatternAbsent(d, pat);
      ReplaceAllNoMatch(d, pat, u + "-");
    } else {
      assert s[..4][..3] == w && pat[..3] == t;
      var x := s[1..];
      assert forall m :: 3 <= m < |x| ==> x[m] == d[m - 3];
      DashPatternAbsent(x, pat);
      ReplaceAllNoMatch(x, pat, u + "-");
      assert [s[0]] + x == s;
    }
  }

  // ---------------------------------------------------------------- month tokens

  /** A three-letter month abbreviation. */
  datatype Token = Token(first: char, second: char, third: char)

  function Text(t: Token): (r: string)
    ensures |r| == 3
  {
    [t.first, t.second, t.third]
  }

  lemma TextInjective(t: Token, u: Token)
    ensures Text(t) == Text(u) <==> t == u
  {
    if Text(t) == Text(u) {
      assert Text(t)[0] == Text(u)[0] && Text(t)[1] == Text(u)[1] && Text(t)[2] == Text(u)[2];
    }
  }

  /** The Italian-to-English month-abbreviation table, in its iteration order. */
  const MonthTable: seq<(Token, Token)> := [
    (Token('g', 'e', 'n'), Token('j', 'a', 'n')), (Token('f', 'e', 'b'), Token('f', 'e', 'b')),
    (Token('m', 'a', 'r'), Token('m', 'a', 'r')), (Token('a', 'p', 'r'), Token('a', 'p', 'r')),
    (Token('m', 'a', 'g'), Token('m', 'a', 'y')), (Token('g', 'i', 'u'), Token('j', 'u', 'n')),
    (Token('l', 'u', 'g'), Token('j', 'u', 'l')), (Token('a', 'g', 'o'), Token('a', 'u', 'g')),
    (Token('s', 'e', 't'), Token('s', 'e', 'p')), (Token('o', 't', 't'), Token('o', 'c', 't')),
    (Token('n', 'o', 'v'), Token('n', 'o', 'v')), (Token('d', 'i', 'c'), Token('d', 'e', 'c'))
  ]

  /** The left fold, from entry k on, of `replace("<it>-", "<en>-")`. */
  function RewriteTokens(tab: seq<(Token, Token)>, k: nat, s: string): (r: string)
    ensures |r| == |s|
    decreases |tab| - k
  {
    if k >= |tab| then s
    else RewriteTokens(tab, k + 1, ReplaceAll(s, Text(tab[k].0) + "-", Text(tab[k].1) + "-"))
  }

  /** The same fold applied to a bare token. */
  function TranslateToken(tab: seq<(Token, Token)>, k: nat, w: Token): Token
    decreases |tab| - k
  {
    if k >= |tab| then w
    else TranslateToken(tab, k + 1, if w == tab[k].0 then tab[k].1 else w)
  }

  /** On "w-d" with a dash-free d, the fold of replacements rewrites the
      token alone, as the token fold does. */
  lemma {:induction false} RewriteOneDate(tab: seq<(Token, Token)>, k: nat, w: Token, d: string)
    requires '-' !in d
    ensures RewriteTokens(tab, k, Text(w) + "-" + d) == Text(TranslateToken(tab, k, w)) + "-" + d
    decreases |tab| - k
  {
    if k < |tab| {
      ReplaceTokenStep(Text(w), d, Text(tab[k].0), Text(tab[k].1));
      TextInjective(w, tab[k].0);
      var w' := if w == tab[k].0 then tab[k].1 else w;
      RewriteOneDate(tab, k + 1, w', d);
    }
  }

  /** w is the key of no entry from k on. */
  predicate NotKeyFrom(tab: seq<(Token, Token)>, k: nat, w: Token)
    decreases |tab| - k
  {
    k >= |tab| || (tab[k].0 != w && NotKeyFrom(tab, k + 1, w))
  }

  /** w is neither the key nor the value of any entry from k on. */
  predicate NotInEntriesFrom(tab: seq<(Token, Token)>, k: nat, w: Token)
    decreases |tab| - k
  {
    k >= |tab| || (tab[k].0 != w && tab[k].1 != w && NotInEntriesFrom(tab, k + 1, w))
  }

  /** From k on, no later entry rewrites an earlier entry's key or its value. */
  predicate WellOrderedFrom(tab: seq<(Token, Token)>, k: nat)
    decreases |tab| - k
  {
    k >= |tab| ||
    (NotInEntriesFrom(tab, k + 1, tab[k].0) && NotKeyFrom(tab, k + 1, tab[k].1) &&
     WellOrderedFrom(tab, k + 1))
  }

  lemma {:induction false} NotInEntriesAt(tab: seq<(Token, Token)>, k: nat, w: Token, i: nat)
    requires NotInEntriesFrom(tab, k, w) && k <= i < |tab|
    ensures tab[i].0 != w && tab[i].1 != w
    decreases i - k
  {
    if k < i {
      NotInEntriesAt(tab, k + 1, w, i);
    }
  }

  /** A token that is no key is left alone. */
  lemma {:induction false} TranslateFixed(tab: seq<(Token, Token)>, k: nat, w: Token)
    requires NotKeyFrom(tab, k, w)
    ensures TranslateToken(tab, k, w) == w
    decreases |tab| - k
  {
    if k < |tab| {
      TranslateFixed(tab, k + 1, w);
    }
  }

  /** In a well-ordered table each key goes to its value and each value is fixed. */
  lemma {:induction false} TranslatesEntry(tab: seq<(Token, Token)>, k: nat, i: nat)
    requires WellOrderedFrom(tab, k) && k <= i < |tab|
    ensures TranslateToken(tab, k, tab[i].0) == tab[i].1
    ensures TranslateToken(tab, k, tab[i].1) == tab[i].1
    decreases i - k
  {
    if i == k {
      TranslateFixed(tab, k + 1, tab[k].1);
    } else {
      NotInEntriesAt(tab, k + 1, tab[k].0, i);
      TranslatesEntry(tab, k + 1, i);
    }
  }

  /** Each Italian token goes to its English one; English tokens are fixed. */
  lemma MonthTableTranslations(i: nat)
    requires i < |MonthTable|
    ensures TranslateToken(MonthTable, 0, MonthTable[i].0) == MonthTable[i].1
    ensures TranslateToken(MonthTable, 0, MonthTable[i].1) == MonthTable[i].1
  {
    MonthTableWellOrdered();
    TranslatesEntry(MonthTable, 0, i);
  }

  lemma MonthTableWellOrdered()
    ensures WellOrderedFrom(MonthTable, 0)
  {
  }

  /** The rewrite `_read_production` applies to each date text. */
  function MonthRewrite(raw: string): (r: string)
    ensures |r| <= |raw|
  {
    RewriteTokens(MonthTable, 0, Lower(Strip(raw)))
  }

  /** The loop of `_read_production`, one replace-all pass per table entry. */
  method NormalizeMonthText(raw: string) returns (s2: string)
    ensures s2 == MonthRewrite(raw)
  {
    var s := Lower(Strip(raw));
    s2 := s;
    var i := 0;
    while i < |MonthTable|
      invariant 0 <= i <= |MonthTable|
      invariant RewriteTokens(MonthTable, i, s2) == RewriteTokens(MonthTable, 0, s)
    {
      s2 := ReplaceAll(s2, Text(MonthTable[i].0) + "-", Text(MonthTable[i].1) + "-");
      i := i + 1;
    }
  }

  predicate IsDigits(s: string) {
    forall k :: 0 <= k < |s| ==> '0' <= s[k] <= '9'
  }

  predicate LowerLetters(t: Token) {
    'a' <= t.first <= 'z' && 'a' <= t.second <= 'z' && 'a' <= t.third <= 'z'
  }

  lemma MonthTableLetters(i: nat)
    requires i < |MonthTable|
    ensures LowerLetters(MonthTable[i].0) && LowerLetters(MonthTable[i].1)
  {
  }

  /** "w-YYYY" with a lower-case token and digits is already normal. */
  lemma NormalDateText(w: Token, year: string)
    requires LowerLetters(w) && IsDigits(year)
    ensures Lower(Strip(Text(w) + "-" + year)) == Text(w) + "-" + year
  {
    var s := Text(w) + "-" + year;
    StripUnpadded(s);
    assert NoUpper(s) by {
      forall k | 0 <= k < |s| ensures !('A' <= s[k] <= 'Z') {
        if k >= 4 { assert s[k] == year[k - 4]; }
      }
    }
    LowerNoUpper(s);
  }

  /** "<it>-YYYY" becomes "<en>-YYYY". */
  lemma ItalianMonthRewritten(i: nat, year: string)
    requires i < |MonthTable| && IsDigits(year)
    ensures MonthRewrite(Text(MonthTable[i].0) + "-" + year) == Text(MonthTable[i].1) + "-" + year
  {
    MonthTableLetters(i);
    NormalDateText(MonthTable[i].0, year);
    assert '-' !in year by {
      forall k | 0 <= k < |year| ensures year[k] != '-' {}
    }
    RewriteOneDate(MonthTable, 0, MonthTable[i].0, year);
    MonthTableTranslations(i);
  }

  /** "<en>-YYYY" is left unchanged. */
  lemma EnglishMonthUnchanged(i: nat, year: string)
    requires i < |MonthTable| && IsDigits(year)
    ensures MonthRewrite(Text(MonthTable[i].1) + "-" + year) == Text(MonthTable[i].1) + "-" + year
  {
    MonthTableLetters(i);
    NormalDateText(MonthTable[i].1, year);
    assert '-' !in year by {
      forall k | 0 <= k < |year| ensures year[k] != '-' {}
    }
    RewriteOneDate(MonthTable, 0, MonthTable[i].1, year);
    MonthTableTranslations(i);
  }

  /** Surrounding whitespace and letter case do not matter to the rewrite. */
  lemma MonthRewriteNormalizesFirst(raw: string)
    ensures MonthRewrite(raw) == MonthRewrite(Lower(Strip(raw)))
  {
    NormalizeIdempotent(raw);
  }

  // ---------------------------------------------------------------- values

  /** `str.replace(",", "")`: the thousands separators are dropped. */
  function RemoveCommas(s: string): (r: string)
    ensures ',' !in r
    ensures multiset(r) == multiset(s)[',' := 0]
    ensures Sequences.IsSubsequence(r, s)
  {
    if s == [] then []
    else
      var rest := RemoveCommas(s[1..]);
      assert s == [s[0]] + s[1..];
      if s[0] == ',' then
        Sequences.SubsequenceOfTail(rest, s);
        rest
      else
        assert ([s[0]] + rest)[1..] == rest;
        [s[0]] + rest
  }

  /** Comma removal is the `str.replace(",", "")` pass of the value columns. */
  lemma {:induction false} RemoveCommasIsReplace(s: string)
    ensures RemoveCommas(s) == ReplaceAll(s, ",", "")
  {
    if s != [] {
      RemoveCommasIsReplace(s[1..]);
      if s[0] == ',' {
        assert s[..1] == ",";
        assert ReplaceAll(s, ",", "") == ReplaceAll(s[1..], ",", "");
        assert RemoveCommas(s) == RemoveCommas(s[1..]);
      } else {
        assert s[..1] != ",";
        assert ReplaceAll(s, ",", "") == [s[0]] + ReplaceAll(s[1..], ",", "");
        assert RemoveCommas(s) == [s[0]] + RemoveCommas(s[1..]);
      }
    }
  }

  /** Comma removal distributes over concatenation, so the kept characters
      stay in their original order. */
  lemma {:induction false} RemoveCommasAppend(a: string, b: string)
    ensures RemoveCommas(a + b) == RemoveCommas(a) + RemoveCommas(b)
  {
    if a == [] {
      assert a + b == b;
    } else {
      assert (a + b)[0] == a[0] && (a + b)[1..] == a[1..] + b;
      RemoveCommasAppend(a[1..], b);
    }
  }

  /** Text without commas is unchanged. */
  lemma {:induction false} RemoveCommasNoComma(s: string)
    requires ',' !in s
    ensures RemoveCommas(s) == s
  {
    if s != [] {
      RemoveCommasNoComma(s[1..]);
    }
  }

  // ---------------------------------------------------------------- jet fuel

  /** `str.contains(pat, case=False)` for a literal pattern. */
  predicate ContainsIgnoreCase(s: string, pat: string)
    ensures pat == [] ==> ContainsIgnoreCase(s, pat)
    ensures ContainsIgnoreCase(s, pat) ==> |pat| <= |s|
  {
    assert pat == [] ==> Occurs(Lower(s), Lower(pat), 0);
    exists i :: 0 <= i <= |s| && Occurs(Lower(s), Lower(pat), i)
  }

  /** The index of the first comma, or the length when there is none. */
  function FirstComma(s: string): (i: nat)
    ensures i <= |s| && ',' !in s[..i]
    ensures i < |s| ==> s[i] == ','
  {
    if s == [] || s[0] == ',' then 0
    else
      var i := 1 + FirstComma(s[1..]);
      assert s[..i] == [s[0]] + s[1..][..i - 1];
      i
  }

  /** A jet-fuel line split at its first comma; no comma gives no value. */
  datatype DateValue = DateValue(date: string, value: Option<string>)

  /** Putting the comma back. */
  function Rejoin(dv: DateValue): string {
    match dv.value
    case Some(v) => dv.date + "," + v
    case None => dv.date
  }

  /** `str.split(",", n=1)`: the date part holds no comma, and rejoining
      gives back the line. */
  function SplitFirstComma(line: string): (r: DateValue)
    ensures ',' !in r.date
    ensures r.value.Some? <==> ',' in line
    ensures Rejoin(r) == line
  {
    var i := FirstComma(line);
    if i < |line| then
      assert line == line[..i] + "," + line[i + 1..];
      DateValue(line[..i], Some(line[i + 1..]))
    else
      assert line[..i] == line;
      DateValue(line, None)
  }

  /** `iloc[0]` on an empty column, and `parts[1]` when no line has a comma. */
  datatype JetError = EmptyColumn | NoValueColumn

  /** The lines after the optional "Datetime" header. */
  function JetFuelBody(col: seq<string>): (body: seq<string>)
    requires |col| > 0
    ensures |body| == |col| - 1 <==> ContainsIgnoreCase(col[0], "Datetime")
    ensures body == col || body == col[1..]
  {
    if ContainsIgnoreCase(col[0], "Datetime") then col[1..] else col
  }

  /** The line handling of `_read_jetfuel`: drop the header, split each line
      at its first comma. */
  function ReadJetFuelLines(col: seq<string>): (r: Result<seq<DateValue>, JetError>)
    ensures r == Err(EmptyColumn) <==> |col| == 0
    ensures |col| > 0 ==>
              (r == Err(NoValueColumn) <==>
                 forall i :: 0 <= i < |JetFuelBody(col)| ==> ',' !in JetFuelBody(col)[i])
    ensures r.Ok? ==>
              |r.value| == |JetFuelBody(col)| &&
              forall i :: 0 <= i < |r.value| ==>
                ',' !in r.value[i].date && Rejoin(r.value[i]) == JetFuelBody(col)[i]
  {
    if |col| == 0 then Err(EmptyColumn)
    else
      var body := JetFuelBody(col);
      if forall i :: 0 <= i < |body| ==> ',' !in body[i] then Err(NoValueColumn)
      else Ok(seq(|body|, i requires 0 <= i < |body| => SplitFirstComma(body[i])))
  }

  // ---------------------------------------------------------------- month start

  /** A timestamp: calendar date and seconds into the day. */
  datatype Timestamp = Timestamp(year: int, month: int, day: int, seconds: int)

  /** `to_period("M").to_timestamp()`: midnight on the first of the month. */
  function MonthStart(t: Timestamp): (r: Timestamp)
    ensures r.year == t.year && r.month == t.month
    ensures r.day == 1 && r.seconds == 0
  {
    Timestamp(t.year, t.month, 1, 0)
  }

  /** Normalising twice is normalising once, and two timestamps normalise
      alike exactly when they fall in the same month. */
  lemma MonthStartProperties(a: Timestamp, b: Timestamp)
    ensures MonthStart(MonthStart(a)) == MonthStart(a)
    ensures MonthStart(a) == MonthStart(b) <==> a.year == b.year && a.month == b.month
  {
  }

  // ---------------------------------------------------------------- alignment

  /** n copies of x. */
  function Repeat(x: int, n: nat): (r: seq<int>)
    ensures multiset(r)[x] == n
    ensures forall y :: y != x ==> multiset(r)[y] == 0
    ensures forall y :: y in r <==> y == x && n > 0
  {
    if n == 0 then [] else [x] + Repeat(x, n - 1)
  }

  /** An inner join on the date key: each left row meets every right row
      with the same key, in left-row order. */
  function InnerJoin(l: seq<int>, r: seq<int>): (j: seq<int>)
    ensures forall x :: x in j ==> x in l && x in r
  {
    if l == [] then []
    else Repeat(l[0], multiset(r)[l[0]]) + InnerJoin(l[1..], r)
  }

  /** A key occurs in the join as often as the product of its occurrences. */
  lemma {:induction false} InnerJoinCount(l: seq<int>, r: seq<int>, x: int)
    ensures multiset(InnerJoin(l, r))[x] == multiset(l)[x] * multiset(r)[x]
  {
    if l != [] {
      var rest, a, c := multiset(InnerJoin(l[1..], r))[x], multiset(l[1..])[x], multiset(r)[x];
      InnerJoinCount(l[1..], r, x);
      JoinStepCount(l, r, x);
      HeadCount(l, x);
      CountCombine(x == l[0], rest, a, c);
      assert multiset(InnerJoin(l, r))[x] == ((if x == l[0] then 1 else 0) + a) * c;
    }
  }

  lemma JoinStepCount(l: seq<int>, r: seq<int>, x: int)
    requires l != []
    ensures multiset(InnerJoin(l, r))[x] ==
            (if x == l[0] then multiset(r)[x] else 0) + multiset(InnerJoin(l[1..], r))[x]
  {
    var rep := Repeat(l[0], multiset(r)[l[0]]);
    assert InnerJoin(l, r) == rep + InnerJoin(l[1..], r);
  }

  lemma HeadCount(l: seq<int>, x: int)
    requires l != []
    ensures multiset(l)[x] == (if x == l[0] then 1 else 0) + multiset(l[1..])[x]
  {
    assert l == [l[0]] + l[1..];
  }

  /** The arithmetic of one join step: the head's rows plus the rest's. */
  lemma CountCombine(head: bool, restc: int, a: int, c: int)
    requires restc == a * c
    ensures (if head then c else 0) + restc == ((if head then 1 else 0) + a) * c
  {
  }

  /** The rows whose key lies in [start, end]. */
  function InRange(s: seq<int>, start: int, end: int): (r: seq<int>)
    ensures forall x :: multiset(r)[x] == if start <= x <= end then multiset(s)[x] else 0
  {
    if s == [] then []
    else
      assert s == [s[0]] + s[1..];
      (if start <= s[0] <= end then [s[0]] else []) + InRange(s[1..], start, end)
  }

  function Insert(x: int, s: seq<int>): (r: seq<int>)
    ensures |r| == |s| + 1
    ensures multiset(r) == multiset(s) + multiset{x}
  {
    if s == [] || x <= s[0] then [x] + s
    else
      assert s == [s[0]] + s[1..];
      [s[0]] + Insert(x, s[1..])
  }

  /** Inserting into a sorted sequence keeps it sorted; the head is the smaller
      of x and the old head. */
  lemma {:induction false} InsertSorted(x: int, s: seq<int>)
    requires Sequences.Sorted(s)
    ensures Sequences.Sorted(Insert(x, s))
    ensures Insert(x, s)[0] == if s == [] || x <= s[0] then x else s[0]
  {
    if s == [] || x <= s[0] {
      Sequences.SortedCons(x, s);
    } else {
      Sequences.SortedTail(s);
      InsertSorted(x, s[1..]);
      assert |s| > 1 ==> s[0] <= s[1];
      Sequences.SortedCons(s[0], Insert(x, s[1..]));
    }
  }

  /** `sort_values("Date")` on the key column. */
  function SortKeys(s: seq<int>): (r: seq<int>)
    ensures multiset(r) == multiset(s)
  {
    if s == [] then []
    else
      assert s == [s[0]] + s[1..];
      Insert(s[0], SortKeys(s[1..]))
  }

  lemma {:induction false} SortKeysSorted(s: seq<int>)
    ensures Sequences.Sorted(SortKeys(s))
  {
    if s != [] {
      SortKeysSorted(s[1..]);
      InsertSorted(s[0], SortKeys(s[1..]));
    }
  }

  /** The date keys of the eight series read by the builder. */
  datatype Sources = Sources(
    wti: seq<int>, cpi: seq<int>, ocse: seq<int>, rea: seq<int>,
    inv: seq<int>, prd: seq<int>, ffr: seq<int>, jet: seq<int>)

  /** How often the key occurs in every series: the number of joined rows. */
  function JointCount(src: Sources, x: int): nat {
    multiset(src.wti)[x] * multiset(src.cpi)[x] * multiset(src.ocse)[x] * multiset(src.rea)[x] *
    multiset(src.inv)[x] * multiset(src.prd)[x] * multiset(src.ffr)[x] * multiset(src.jet)[x]
  }

  predicate InAll(src: Sources, x: int) {
    x in src.wti && x in src.cpi && x in src.ocse && x in src.rea &&
    x in src.inv && x in src.prd && x in src.ffr && x in src.jet
  }

  predicate AllUnique(src: Sources) {
    Sequences.Unique(src.wti) && Sequences.Unique(src.cpi) && Sequences.Unique(src.ocse) &&
    Sequences.Unique(src.rea) && Sequences.Unique(src.inv) && Sequences.Unique(src.prd) &&
    Sequences.Unique(src.ffr) && Sequences.Unique(src.jet)
  }

  lemma ProductPositive(a: nat, b: nat)
    ensures a * b > 0 <==> a > 0 && b > 0
    ensures a <= 1 && b <= 1 ==> a * b <= 1
  {
  }

  /** A key survives the joins exactly when every series has it. */
  lemma JointCountPositive(src: Sources, x: int)
    ensures JointCount(src, x) > 0 <==> InAll(src, x)
  {
    var c1, c2, c3, c4 := multiset(src.wti)[x], multiset(src.cpi)[x], multiset(src.ocse)[x], multiset(src.rea)[x];
    var c5, c6, c7, c8 := multiset(src.inv)[x], multiset(src.prd)[x], multiset(src.ffr)[x], multiset(src.jet)[x];
    ProductPositive(c1, c2);
    ProductPositive(c1 * c2, c3);
    ProductPositive(c1 * c2 * c3, c4);
    ProductPositive(c1 * c2 * c3 * c4, c5);
    ProductPositive(c1 * c2 * c3 * c4 * c5, c6);
    ProductPositive(c1 * c2 * c3 * c4 * c5 * c6, c7);
    ProductPositive(c1 * c2 * c3 * c4 * c5 * c6 * c7, c8);
  }

  /** With unique dates in every series, no date is joined twice. */
  lemma JointCountAtMostOne(src: Sources, x: int)
    requires AllUnique(src)
    ensures JointCount(src, x) <= 1
  {
    Sequences.UniqueCountAtMostOne(src.wti, x);
    Sequences.UniqueCountAtMostOne(src.cpi, x);
    Sequences.UniqueCountAtMostOne(src.ocse, x);
    Sequences.UniqueCountAtMostOne(src.rea, x);
    Sequences.UniqueCountAtMostOne(src.inv, x);
    Sequences.UniqueCountAtMostOne(src.prd, x);
    Sequences.UniqueCountAtMostOne(src.ffr, x);
    Sequences.UniqueCountAtMostOne(src.jet, x);
    var c1, c2, c3, c4 := multiset(src.wti)[x], multiset(src.cpi)[x], multiset(src.ocse)[x], multiset(src.rea)[x];
    var c5, c6, c7, c8 := multiset(src.inv)[x], multiset(src.prd)[x], multiset(src.ffr)[x], multiset(src.jet)[x];
    ProductPositive(c1, c2);
    ProductPositive(c1 * c2, c3);
    ProductPositive(c1 * c2 * c3, c4);
    ProductPositive(c1 * c2 * c3 * c4, c5);
    ProductPositive(c1 * c2 * c3 * c4 * c5, c6);
    ProductPositive(c1 * c2 * c3 * c4 * c5 * c6, c7);
    ProductPositive(c1 * c2 * c3 * c4 * c5 * c6 * c7, c8);
  }

  /** The seven inner merges of `build_oil_dataset`, on the date column. */
  function JoinAll(src: Sources): (j: seq<int>)
    ensures forall x :: x in j ==> InAll(src, x)
  {
    InnerJoin(InnerJoin(InnerJoin(InnerJoin(InnerJoin(InnerJoin(InnerJoin(
      src.wti, src.cpi), src.ocse), src.rea), src.inv), src.prd), src.ffr), src.jet)
  }

  lemma JoinAllCount(src: Sources, x: int)
    ensures multiset(JoinAll(src))[x] == JointCount(src, x)
  {
    var j1 := InnerJoin(src.wti, src.cpi);
    var j2 := InnerJoin(j1, src.ocse);
    var j3 := InnerJoin(j2, src.rea);
    var j4 := InnerJoin(j3, src.inv);
    var j5 := InnerJoin(j4, src.prd);
    var j6 := InnerJoin(j5, src.ffr);
    InnerJoinCount(src.wti, src.cpi, x);
    InnerJoinCount(j1, src.ocse, x);
    InnerJoinCount(j2, src.rea, x);
    InnerJoinCount(j3, src.inv, x);
    InnerJoinCount(j4, src.prd, x);
    InnerJoinCount(j5, src.ffr, x);
    InnerJoinCount(j6, src.jet, x);
  }

  /** The date column after the joins, the date-range filter and the sort. */
  function Aligned(src: Sources, start: int, end: int): (r: seq<int>)
    ensures Sequences.Sorted(r)
  {
    SortKeysSorted(InRange(JoinAll(src), start, end));
    SortKeys(InRange(JoinAll(src), start, end))
  }

  lemma AlignedCount(src: Sources, start: int, end: int, x: int)
    ensures multiset(Aligned(src, start, end))[x] == if start <= x <= end then JointCount(src, x) else 0
  {
    JoinAllCount(src, x);
  }

  /** A date is kept exactly when it is in range and in every series. */
  lemma AlignedMembers(src: Sources, start: int, end: int, x: int)
    ensures x in Aligned(src, start, end) <==> start <= x <= end && InAll(src, x)
  {
    var dates := Aligned(src, start, end);
    assert x in dates <==> multiset(dates)[x] > 0;
    AlignedCount(src, start, end, x);
    JointCountPositive(src, x);
  }

  /** With unique dates in every series, the aligned dates strictly increase. */
  lemma AlignedStrict(src: Sources, start: int, end: int)
    requires AllUnique(src)
    ensures Sequences.StrictlySorted(Aligned(src, start, end))
  {
    var dates := Aligned(src, start, end);
    SortKeysSorted(InRange(JoinAll(src), start, end));
    forall x ensures multiset(dates)[x] <= 1 {
      AlignedCount(src, start, end, x);
      JointCountAtMostOne(src, x);
    }
    Sequences.SortedSingletonsStrict(dates);
  }

  /** The seven inner merges, the date-range filter and the sort of
      `build_oil_dataset`, on the date column. */
  method AlignDates(src: Sources, start: int, end: int) returns (dates: seq<int>)
    ensures Sequences.Sorted(dates)
    ensures forall x :: multiset(dates)[x] == if start <= x <= end then JointCount(src, x) else 0
    ensures forall x :: x in dates <==> start <= x <= end && InAll(src, x)
    ensures AllUnique(src) ==> Sequences.StrictlySorted(dates)
  {
    var all := InnerJoin(src.wti, src.cpi);
    all := InnerJoin(all, src.ocse);
    all := InnerJoin(all, src.rea);
    all := InnerJoin(all, src.inv);
    all := InnerJoin(all, src.prd);
    all := InnerJoin(all, src.ffr);
    all := InnerJoin(all, src.jet);
    var inRange := InRange(all, start, end);
    dates := SortKeys(inRange);
    assert dates == Aligned(src, start, end);
    SortKeysSorted(inRange);
    forall x ensures multiset(dates)[x] == if start <= x <= end then JointCount(src, x) else 0 {
      AlignedCount(src, start, end, x);
    }
    forall x ensures x in dates <==> start <= x <= end && InAll(src, x) {
      AlignedMembers(src, start, end, x);
    }
    if AllUnique(src) {
      AlignedStrict(src, start, end);
    }
  }

  /** The configured date range. */
  const StartDate: Timestamp := Timestamp(1990, 1, 1, 0)
  const EndDate: Timestamp := Timestamp(2024, 12, 31, 0)

  /** Timestamp order: by year, month, day, then seconds. */
  predicate TimestampLe(a: Timestamp, b: Timestamp) {
    a.year < b.year || (a.year == b.year &&
      (a.month < b.month || (a.month == b.month &&
        (a.day < b.day || (a.day == b.day && a.seconds <= b.seconds)))))
  }

  /** The date key of a month-start timestamp: months since year 0. */
  function MonthKey(t: Timestamp): (key: int)
    ensures 1 <= t.month <= 12 ==> key / 12 == t.year && key % 12 == t.month - 1
  {
    t.year * 12 + t.month - 1
  }

  /** For month starts the key order is the timestamp order, so the integer
      date keys the alignment works on keep the same rows as the filter
      `StartDate <= date <= EndDate`. */
  lemma ConfiguredRangeByKey(t: Timestamp)
    requires 1 <= t.month <= 12
    ensures TimestampLe(StartDate, MonthStart(t)) && TimestampLe(MonthStart(t), EndDate) <==>
              MonthKey(StartDate) <= MonthKey(MonthStart(t)) <= MonthKey(EndDate)
  {
  }

  /** The alignment over the configured range, keys being month keys. */
  method AlignConfigured(src: Sources) returns (dates: seq<int>)
    ensures Sequences.Sorted(dates)
    ensures forall x :: x in dates <==> MonthKey(StartDate) <= x <= MonthKey(EndDate) && InAll(src, x)
    ensures forall x :: multiset(dates)[x] ==
              if MonthKey(StartDate) <= x <= MonthKey(EndDate) then JointCount(src, x) else 0
    ensures AllUnique(src) ==> Sequences.StrictlySorted(dates)
  {
    dates := AlignDates(src, MonthKey(StartDate), MonthKey(EndDate));
  }
}
