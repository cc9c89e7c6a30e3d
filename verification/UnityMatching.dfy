/** `IsStringInBiggerString` of unity.c: the test filter. Reading a string at its length gives its NUL. */
module UnityMatching {
  import opened CText

  predicate IsTerminator(c: char) { c == '*' || c == ',' || c == '"' || c == '\'' || c == ':' || c == NUL }

  function At(s: string, i: nat): char { if i < |s| then s[i] else NUL }

  /** Length of the pattern proper: up to the first terminator at index 1 or later. */
  function PatternLength(short: string): (n: nat)
    requires short != ""
    ensures 1 <= n <= |short| && IsTerminator(At(short, n))
    ensures forall i | 1 <= i < n :: !IsTerminator(short[i])
  { FirstTerminator(short, 1) }

  function FirstTerminator(short: string, from: nat): (n: nat)
    requires from <= |short|
    ensures from <= n <= |short| && IsTerminator(At(short, n))
    ensures forall i | from <= i < n :: !IsTerminator(short[i])
    decreases |short| - from
  { if IsTerminator(At(short, from)) then from else FirstTerminator(short, from + 1) }

  predicate OccursAt(long: string, pattern: string, i: nat) {
    i + |pattern| <= |long| && long[i..i + |pattern|] == pattern
  }

  ghost predicate Occurs(long: string, pattern: string) { exists i: nat :: OccursAt(long, pattern, i) }

  /** The result expected: a leading star matches everything, an empty filter nothing; otherwise the pattern
      proper must occur, and a colon after it asks the caller to look at the test name as well. */
  ghost function Expected(long: string, short: string): int {
    if short == "" then 0
    else if short[0] == '*' then 1
    else
      var n := PatternLength(short);
      if !Occurs(long, short[..n]) then 0 else if At(short, n) == ':' then 2 else 1
  }

  /** `IsStringInBiggerString`. */
  method IsStringInBiggerString(long: string, short: string) returns (r: int)
    requires NUL !in long && NUL !in short
    ensures r == Expected(long, short)
  {
    var l, s := 0, 0;
    if At(short, s) == '*' { return 1; }
    while l < |long|
      invariant l <= |long| && s == 0
      invariant short != "" ==> forall i: nat | i < l :: !OccursAt(long, short[..PatternLength(short)], i)
    {
      ghost var start := l;
      var next := l + 1;
      while l < |long| && s < |short| && long[l] == short[s]
        invariant l == start + s && l <= |long| && s <= |short|
        invariant short != "" ==> s < PatternLength(short)
        invariant long[start..l] == short[..s]
        decreases |short| - s
      {
        assert long[start..l + 1] == long[start..l] + [long[l]] && short[..s + 1] == short[..s] + [short[s]];
        l, s := l + 1, s + 1;
        var c := At(short, s);
        if c == '*' || c == ',' || c == '"' || c == '\'' || c == ':' || c == NUL {
          assert s == PatternLength(short);
          assert OccursAt(long, short[..s], start);
          return if c == ':' then 2 else 1;
        }
      }
      if short != "" { Mismatch(long, short, start, s); }
      l, s := next, 0;
    }
    if short != "" {
      forall i: nat ensures !OccursAt(long, short[..PatternLength(short)], i) {}
    }
    r := 0;
  }

  /** A comparison that stopped inside the pattern rules out an occurrence at its start. */
  lemma Mismatch(long: string, short: string, start: nat, s: nat)
    requires short != "" && s < PatternLength(short) && start + s <= |long|
    requires start + s == |long| || long[start + s] != short[s]
    ensures !OccursAt(long, short[..PatternLength(short)], start)
  {
    var p := short[..PatternLength(short)];
    assert start + |p| <= |long| ==> long[start..start + |p|][s] != p[s];
  }
}
