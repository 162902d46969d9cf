/**
 * Column labels (src/lib/spreadsheet/index.ts): a 1-based column index is
 * written in bijective base 26 with the digits A=1 .. Z=26.
 */
module Spreadsheet {
  import opened Wrappers

  /** The `chars` table: the 26 upper-case letters, indexed 0 .. 25. */
  const Chars: seq<char> := "ABCDEFGHIJKLMNOPQRSTUVWXYZ"

  predicate IsLetter(c: char) {
    'A' <= c <= 'Z'
  }

  predicate IsLetters(s: string) {
    forall i :: 0 <= i < |s| ==> IsLetter(s[i])
  }

  /** JavaScript's `a % 26`, which truncates toward zero (Dafny's `%` never returns a negative). */
  function TruncMod26(a: int): (r: int)
    ensures a >= 0 ==> r == a % 26
    ensures a < 0 ==> -26 < r <= 0
    ensures r == 0 <==> a % 26 == 0
  {
    if a >= 0 then a % 26 else -((-a) % 26)
  }

  /** Division by 26 undoes a base-26 digit step. */
  lemma DivMod26(q: int, d: int)
    requires 0 <= d < 26
    ensures (q * 26 + d) / 26 == q && (q * 26 + d) % 26 == d
  {
  }

  /**
   * `chars[k]`: a JavaScript array read, `undefined` outside the table. The
   * entry is computed as the letter 'A' + k; CharsTable shows that this is
   * what the table holds.
   */
  function CharAt(k: int): (r: Option<char>)
    ensures r.Some? <==> 0 <= k < 26
    ensures r.Some? ==> IsLetter(r.value) && LetterValue(r.value) == k + 1
  {
    if 0 <= k < 26 then Some(('A' as int + k) as char) else None
  }

  /** The table has 26 entries, and entry k is the letter CharAt(k) reads. */
  lemma CharsTable()
    ensures |Chars| == 26
    ensures forall k :: 0 <= k < 26 ==> CharAt(k) == Some(Chars[k])
  {
  }

  /**
   * `numberToExcelHeader`, on every integer. For index >= 1 the label is
   * defined, non-empty and made of letters. For index <= 0 the quotient is
   * negative, so there is no recursion and the result is the single table
   * read `chars[(index - 1) % 26]` with a truncating `%`: that is `chars[0]`
   * when index - 1 is a multiple of 26 and `undefined` otherwise.
   */
  function NumberToExcelHeader(index: int): (r: Option<string>)
    decreases if index > 0 then index else 0
    ensures index >= 1 ==> r.Some? && |r.value| >= 1 && IsLetters(r.value)
    ensures index <= 0 ==> r == if (index - 1) % 26 == 0 then Some("A") else None
  {
    var currentIndex := index - 1;
    // Math.floor(currentIndex / 26): Dafny's `/` rounds down for a positive divisor
    var quotient := currentIndex / 26;
    if quotient > 0 then
      var prefix := NumberToExcelHeader(quotient);
      var last := CharAt(TruncMod26(currentIndex));
      Some(prefix.value + [last.value])
    else
      match CharAt(TruncMod26(currentIndex))
      case None => None
      case Some(c) => Some([c])
  }

  /** The label of a column index known to be positive. */
  function Header(index: int): string
    requires index >= 1
  {
    NumberToExcelHeader(index).value
  }

  /** The digit value of a letter: A=1 .. Z=26. */
  function LetterValue(c: char): int {
    c as int - 'A' as int + 1
  }

  /** A label read back as a bijective base-26 numeral, most significant letter first. */
  function HeaderValue(s: string): int {
    if s == [] then 0 else HeaderValue(s[..|s| - 1]) * 26 + LetterValue(s[|s| - 1])
  }

  /** The small cases: 1 .. 26 give the single letter `chars[index - 1]`. */
  lemma SingleLetterHeader(index: int)
    requires 1 <= index <= 26
    ensures NumberToExcelHeader(index) == Some([Chars[index - 1]])
  {
    assert (index - 1) / 26 == 0;
    assert TruncMod26(index - 1) == index - 1;
    CharsTable();
  }

  /**
   * The recursion step: past 26 the label is the label of the quotient
   * followed by the letter of the remainder, and the quotient is smaller.
   */
  lemma HeaderRecurrence(index: int)
    requires index > 26
    ensures 1 <= (index - 1) / 26 < index
    ensures Header(index) == Header((index - 1) / 26) + [Chars[(index - 1) % 26]]
  {
    HeaderStep(index);
    CharsTable();
  }

  /** The recursion step with the last letter given by CharAt, the form the proofs below use. */
  lemma HeaderStep(index: int)
    requires index > 26
    ensures 1 <= (index - 1) / 26 < index
    ensures Header(index) == Header((index - 1) / 26) + [CharAt((index - 1) % 26).value]
  {
  }

  /** Decoding a label gives back its index. */
  lemma {:induction false} HeaderRoundTrip(index: int)
    requires index >= 1
    ensures HeaderValue(Header(index)) == index
  {
    var cur := index - 1;
    var h := Header(index);
    if index > 26 {
      var q := cur / 26;
      HeaderStep(index);
      HeaderRoundTrip(q);
      assert h[..|h| - 1] == Header(q);
      assert h[|h| - 1] == CharAt(cur % 26).value;
    } else {
      assert cur / 26 == 0 && TruncMod26(cur) == cur;
      assert h == [CharAt(cur).value];
    }
  }

  /** Distinct indices get distinct labels. */
  lemma HeaderInjective(i: int, j: int)
    requires i >= 1 && j >= 1
    requires NumberToExcelHeader(i) == NumberToExcelHeader(j)
    ensures i == j
  {
    HeaderRoundTrip(i);
    HeaderRoundTrip(j);
  }

  /** Every non-empty string of letters is the label of exactly its value. */
  lemma {:induction false} HeaderOfValue(s: string)
    requires |s| >= 1 && IsLetters(s)
    ensures HeaderValue(s) >= 1
    ensures NumberToExcelHeader(HeaderValue(s)) == Some(s)
  {
    var t := s[..|s| - 1];
    var c := s[|s| - 1];
    var d := LetterValue(c);
    assert 1 <= d <= 26;
    var v := HeaderValue(s);
    assert v == HeaderValue(t) * 26 + d;
    assert CharAt(d - 1).value == c;
    if |t| == 0 {
      assert v == d;
      assert s == [c];
    } else {
      HeaderOfValue(t);
      DivMod26(HeaderValue(t), d - 1);
      assert (v - 1) / 26 == HeaderValue(t) && (v - 1) % 26 == d - 1;
      HeaderStep(v);
      assert Header(v) == Header(HeaderValue(t)) + [CharAt(d - 1).value];
      assert s == t + [c];
    }
  }

  /** Known labels, as the spreadsheet shows them. */
  lemma KnownHeaders()
    ensures NumberToExcelHeader(1) == Some("A")
    ensures NumberToExcelHeader(26) == Some("Z")
    ensures NumberToExcelHeader(27) == Some("AA")
    ensures NumberToExcelHeader(52) == Some("AZ")
    ensures NumberToExcelHeader(53) == Some("BA")
    ensures NumberToExcelHeader(703) == Some("AAA")
  {
    KnownHeader("A", 1);
    KnownHeader("Z", 26);
    KnownHeader("AA", 27);
    KnownHeader("AZ", 52);
    KnownHeader("BA", 53);
    assert "AAA"[..2] == "AA";
    KnownHeader("AAA", 703);
  }

  /** A letter string is the label of the index it spells. */
  lemma KnownHeader(s: string, index: int)
    requires |s| >= 1 && IsLetters(s) && HeaderValue(s) == index
    ensures NumberToExcelHeader(index) == Some(s)
  {
    HeaderOfValue(s);
  }

  /** Index 0 (passed by the canvas header loop) reads `chars[-1]`; index -25 reads `chars[-0]`. */
  lemma NonPositiveHeaders()
    ensures NumberToExcelHeader(0) == None
    ensures NumberToExcelHeader(-25) == Some("A")
  {
  }

  /** The first `columnCount` labels, built as the push loop builds them. */
  function HeaderList(columnCount: int): seq<string>
    decreases if columnCount > 0 then columnCount else 0
  {
    if columnCount <= 0 then [] else HeaderList(columnCount - 1) + [Header(columnCount)]
  }

  /** The list has max(columnCount, 0) entries and entry k is the label of column k + 1. */
  lemma {:induction false} HeaderListAt(columnCount: int)
    ensures |HeaderList(columnCount)| == if columnCount > 0 then columnCount else 0
    ensures forall k :: 0 <= k < |HeaderList(columnCount)| ==> HeaderList(columnCount)[k] == Header(k + 1)
    decreases if columnCount > 0 then columnCount else 0
  {
    if columnCount > 0 {
      HeaderListAt(columnCount - 1);
      var prev := HeaderList(columnCount - 1);
      var list := HeaderList(columnCount);
      assert list == prev + [Header(columnCount)];
      forall k | 0 <= k < columnCount
        ensures list[k] == Header(k + 1)
      {
        if k < columnCount - 1 {
          assert list[k] == prev[k];
        }
      }
    }
  }

  /** `numberToExcelHeaderArray`: a loop from 1 to columnCount pushing each label. */
  method NumberToExcelHeaderArray(columnCount: int) returns (columnHeaders: seq<string>)
    ensures columnHeaders == HeaderList(columnCount)
    ensures |columnHeaders| == if columnCount > 0 then columnCount else 0
    ensures forall k :: 0 <= k < |columnHeaders| ==> NumberToExcelHeader(k + 1) == Some(columnHeaders[k])
  {
    columnHeaders := [];
    var i := 1;
    while i <= columnCount
      invariant 1 <= i <= if columnCount >= 1 then columnCount + 1 else 1
      invariant columnHeaders == HeaderList(i - 1)
    {
      columnHeaders := columnHeaders + [Header(i)];
      i := i + 1;
    }
    HeaderListAt(columnCount);
    forall k | 0 <= k < |columnHeaders|
      ensures NumberToExcelHeader(k + 1) == Some(columnHeaders[k])
    {
      assert columnHeaders[k] == Header(k + 1);
    }
  }
}
