/** The operator counter of src/lib/formula/index.ts. */
module Formula {
  import opened Wrappers

  /** Membership in the regular-expression class `[+-]`. */
  predicate IsOperatorChar(c: char) {
    c == '+' || c == '-'
  }

  /** The characters a global scan with `/[+-]/g` picks out of s, left to right. */
  function Matches(s: string): (m: string)
    ensures |m| <= |s|
    ensures forall i :: 0 <= i < |m| ==> IsOperatorChar(m[i])
  {
    if s == [] then [] else (if IsOperatorChar(s[0]) then [s[0]] else []) + Matches(s[1..])
  }

  /** `s.match(/[+-]/g)`: the list of matches, or `null` when there is none. */
  function Match(s: string): Option<string> {
    var m := Matches(s);
    if m == [] then None else Some(m)
  }

  /** `getOperationCount`: the number of matches, falling back to 0 on `null`. */
  function GetOperationCount(s: string): (r: nat)
    ensures r <= |s|
  {
    match Match(s)
    case None => 0
    case Some(found) => |found|
  }

  /** The scan distributes over concatenation. */
  lemma {:induction false} MatchesAppend(a: string, b: string)
    ensures Matches(a + b) == Matches(a) + Matches(b)
  {
    if a != [] {
      assert (a + b)[1..] == a[1..] + b;
      MatchesAppend(a[1..], b);
    } else {
      assert a + b == b;
    }
  }

  /** The count is the number of '+' characters plus the number of '-' characters. */
  lemma {:induction false} OperationCountIsOccurrences(s: string)
    ensures GetOperationCount(s) == multiset(s)['+'] + multiset(s)['-']
  {
    if s != [] {
      assert s == [s[0]] + s[1..];
      OperationCountIsOccurrences(s[1..]);
      MatchesAppend([s[0]], s[1..]);
    }
  }

  /** Counts add up over concatenation, since each match is one character. */
  lemma OperationCountAppend(a: string, b: string)
    ensures GetOperationCount(a + b) == GetOperationCount(a) + GetOperationCount(b)
  {
    MatchesAppend(a, b);
  }

  /** The count is 0 exactly when s holds neither '+' nor '-'. */
  lemma {:induction false} OperationCountZero(s: string)
    ensures GetOperationCount(s) == 0 <==> forall i :: 0 <= i < |s| ==> !IsOperatorChar(s[i])
  {
    if s != [] {
      OperationCountZero(s[1..]);
      assert forall i :: 1 <= i < |s| ==> s[i] == s[1..][i - 1];
    }
  }

  /** Only '+' and '-' count; '*', '/', '(' and ')' do not. */
  lemma OperationCountOfChar(c: char)
    ensures GetOperationCount([c]) == if c == '+' || c == '-' then 1 else 0
    ensures GetOperationCount("*/()") == 0
  {
    assert "*/()"[1..] == "/()";
    assert "/()"[1..] == "()";
    assert "()"[1..] == ")";
  }

  /**
   * `match` returns null exactly when s holds neither '+' nor '-'; otherwise
   * it returns one match per such character.
   */
  lemma MatchIsNull(s: string)
    ensures Match(s).None? <==> forall i :: 0 <= i < |s| ==> !IsOperatorChar(s[i])
    ensures Match(s).Some? ==> |Match(s).value| == multiset(s)['+'] + multiset(s)['-']
  {
    OperationCountZero(s);
    OperationCountIsOccurrences(s);
  }
}
