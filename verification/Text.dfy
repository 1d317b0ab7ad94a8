/** Numbers as text, and lists of fields with a separator. */
module Text {
  predicate IsDigit(c: char) { '0' <= c <= '9' }

  function Digit(d: nat): (c: char)
    requires d < 10
    ensures IsDigit(c) && c as int - '0' as int == d
  {
    ('0' as int + d) as char
  }

  function Decimal(n: nat): (s: string)
    ensures s != [] && forall i :: 0 <= i < |s| ==> IsDigit(s[i])
  {
    if n < 10 then [Digit(n)] else Decimal(n / 10) + [Digit(n % 10)]
  }

  predicate Digits(s: string) {
    forall i :: 0 <= i < |s| ==> IsDigit(s[i])
  }

  function Value(s: string): nat
    requires Digits(s)
  {
    if s == [] then 0 else Value(s[..|s| - 1]) * 10 + (s[|s| - 1] as int - '0' as int)
  }

  lemma {:induction false} ValueOfDecimal(n: nat)
    ensures Value(Decimal(n)) == n
  {
    if n < 10 {
      assert Value([]) == 0;
    } else {
      ValueOfDecimal(n / 10);
      assert Decimal(n)[..|Decimal(n)| - 1] == Decimal(n / 10);
    }
  }

  /** An integer as a stream prints it. */
  function Signed(i: int): (s: string)
    ensures s != [] && (i < 0 <==> s[0] == '-')
    ensures forall k :: 0 <= k < |s| ==> IsDigit(s[k]) || s[k] == '-'
  {
    if i < 0 then "-" + Decimal(-i) else Decimal(i)
  }

  lemma SignedIsInjective(i: int, j: int)
    requires Signed(i) == Signed(j)
    ensures i == j
  {
    if i < 0 && j < 0 {
      assert Decimal(-i) == Signed(i)[1..] == Signed(j)[1..] == Decimal(-j);
      ValueOfDecimal(-i);
      ValueOfDecimal(-j);
    } else if i >= 0 && j >= 0 {
      ValueOfDecimal(i);
      ValueOfDecimal(j);
    }
  }

  // ---------------------------------------------------------------- fields

  function Join(parts: seq<string>, sep: char): string {
    if parts == [] then ""
    else if |parts| == 1 then parts[0]
    else Join(parts[..|parts| - 1], sep) + [sep] + parts[|parts| - 1]
  }

  function Split(s: string, sep: char): (parts: seq<string>)
    ensures parts != []
  {
    if s == [] then [""]
    else
      var (front, c) := (Split(s[..|s| - 1], sep), s[|s| - 1]);
      if c == sep then front + [""] else front[..|front| - 1] + [front[|front| - 1] + [c]]
  }

  lemma JoinNext(parts: seq<string>, next: string, sep: char)
    ensures Join(parts + [next], sep) == if parts == [] then next else Join(parts, sep) + [sep] + next
  {
    assert (parts + [next])[..|parts|] == parts;
  }

  /** How a loop joins: the separator goes in front of every field but the first. */
  lemma JoinStep(parts: seq<string>, i: nat, line: string, sep: char)
    requires i < |parts| && line == Join(parts[..i], sep)
    ensures (if i != 0 then line + [sep] else line) + parts[i] == Join(parts[..i + 1], sep)
  {
    assert parts[..i + 1] == parts[..i] + [parts[i]];
    JoinNext(parts[..i], parts[i], sep);
    assert i == 0 ==> line + parts[i] == parts[i];
  }

  lemma JoinLonger(parts: seq<string>, last: string, more: string, sep: char)
    ensures Join(parts + [last + more], sep) == Join(parts + [last], sep) + more
  {
    JoinNext(parts, last + more, sep);
    JoinNext(parts, last, sep);
    assert Join(parts, sep) + [sep] + (last + more) == Join(parts, sep) + [sep] + last + more;
  }

  /** Two lists of fields put one behind the other: the last and the first field run together. */
  function Fused(a: seq<string>, b: seq<string>): seq<string>
    requires a != [] && b != []
  {
    a[..|a| - 1] + [a[|a| - 1] + b[0]] + b[1..]
  }

  /** A list of fields with one more character of text. */
  function Extended(f: seq<string>, c: char, sep: char): seq<string>
    requires f != []
  {
    if c == sep then f + [""] else f[..|f| - 1] + [f[|f| - 1] + [c]]
  }

  lemma SplitNext(s: string, c: char, sep: char)
    ensures Split(s + [c], sep) == Extended(Split(s, sep), c, sep)
  {
    assert (s + [c])[..|s|] == s;
  }

  lemma {:induction false} SplitConcat(s: string, t: string, sep: char)
    ensures Split(s + t, sep) == Fused(Split(s, sep), Split(t, sep))
  {
    if t == [] {
      assert s + t == s;
      FusedEmpty(Split(s, sep));
    } else {
      var (front, c) := (t[..|t| - 1], t[|t| - 1]);
      assert t == front + [c];
      SplitConcat(s, front, sep);
      SplitConcatNext(s, front, c, sep);
    }
  }

  lemma SplitConcatNext(s: string, t: string, c: char, sep: char)
    requires Split(s + t, sep) == Fused(Split(s, sep), Split(t, sep))
    ensures Split(s + (t + [c]), sep) == Fused(Split(s, sep), Split(t + [c], sep))
  {
    assert s + (t + [c]) == s + t + [c];
    SplitNext(s + t, c, sep);
    SplitNext(t, c, sep);
    FusedNext(Split(s, sep), Split(t, sep), c, sep);
  }

  lemma FusedEmpty(a: seq<string>)
    requires a != []
    ensures Fused(a, [""]) == a
  {
    assert a[|a| - 1] + "" == a[|a| - 1];
  }

  lemma FusedNext(a: seq<string>, b: seq<string>, c: char, sep: char)
    requires a != [] && b != []
    ensures Extended(Fused(a, b), c, sep) == Fused(a, Extended(b, c, sep))
  {
    FusedLonger(a, b, [c]);
  }

  lemma FusedLonger(a: seq<string>, b: seq<string>, more: string)
    requires a != [] && b != []
    ensures var (f, b') := (Fused(a, b), b[..|b| - 1] + [b[|b| - 1] + more]);
            f[..|f| - 1] + [f[|f| - 1] + more] == Fused(a, b')
  {
    if |b| == 1 {
      assert a[|a| - 1] + (b[0] + more) == a[|a| - 1] + b[0] + more;
    }
  }

  lemma {:induction false} SplitField(s: string, sep: char)
    requires sep !in s
    ensures Split(s, sep) == [s]
  {
    if s != [] {
      assert s == s[..|s| - 1] + [s[|s| - 1]];
      SplitField(s[..|s| - 1], sep);
    }
  }

  /** Splitting undoes joining, when no field contains the separator. */
  lemma {:induction false} SplitJoin(parts: seq<string>, sep: char)
    requires parts != [] && forall i :: 0 <= i < |parts| ==> sep !in parts[i]
    ensures Split(Join(parts, sep), sep) == parts
  {
    var (front, last) := (parts[..|parts| - 1], parts[|parts| - 1]);
    SplitField(last, sep);
    if front != [] {
      SplitJoin(front, sep);
      SplitNext(Join(front, sep), sep, sep);
      SplitConcat(Join(front, sep) + [sep], last, sep);
      assert "" + last == last;
      assert Fused(front + [""], [last]) == front + [last] == parts;
    } else {
      assert parts == [last];
    }
  }

  lemma JoinExtended(f: seq<string>, c: char, sep: char)
    requires f != []
    ensures Join(Extended(f, c, sep), sep) == Join(f, sep) + [c]
  {
    if c == sep {
      JoinNext(f, "", sep);
      assert Join(f, sep) + [sep] + "" == Join(f, sep) + [c];
    } else {
      assert f == f[..|f| - 1] + [f[|f| - 1]];
      JoinLonger(f[..|f| - 1], f[|f| - 1], [c], sep);
    }
  }

  /** Joining undoes splitting. */
  lemma {:induction false} JoinSplit(s: string, sep: char)
    ensures Join(Split(s, sep), sep) == s
  {
    if s != [] {
      var (front, c) := (s[..|s| - 1], s[|s| - 1]);
      JoinSplit(front, sep);
      SplitNext(front, c, sep);
      JoinExtended(Split(front, sep), c, sep);
      assert s == front + [c];
    }
  }

  /** The fields have no other characters than the text. */
  lemma {:induction false} SplitChars(s: string, sep: char, i: nat, c: char)
    requires i < |Split(s, sep)| && c in Split(s, sep)[i]
    ensures c in s
  {
    if s != [] {
      var (front, last) := (s[..|s| - 1], s[|s| - 1]);
      var f := Split(front, sep);
      if last == sep {
        SplitChars(front, sep, i, c);
      } else if c in f[if i < |f| then i else 0] {
        SplitChars(front, sep, i, c);
      }
    }
  }

  lemma {:induction false} JoinContains(parts: seq<string>, sep: char, c: char)
    requires c != sep
    ensures c in Join(parts, sep) <==> exists i :: 0 <= i < |parts| && c in parts[i]
  {
    if |parts| > 1 {
      var front := parts[..|parts| - 1];
      JoinContains(front, sep, c);
      assert parts == front + [parts[|parts| - 1]];
    }
  }

  // ---------------------------------------------------------------- searching

  /** The position of the last c, if any. */
  function FindLast(s: string, c: char): (i: int)
    ensures -1 <= i < |s|
    ensures i == -1 ==> c !in s
    ensures i >= 0 ==> s[i] == c && c !in s[i + 1..]
  {
    if s == [] then -1
    else if s[|s| - 1] == c then |s| - 1
    else
      var i := FindLast(s[..|s| - 1], c);
      assert s == s[..|s| - 1] + [s[|s| - 1]];
      assert i >= 0 ==> s[i + 1..] == s[..|s| - 1][i + 1..] + [s[|s| - 1]];
      i
  }

  lemma {:induction false} FindLastConcat(s: string, t: string, c: char)
    ensures FindLast(s + t, c) == if c in t then |s| + FindLast(t, c) else FindLast(s, c)
  {
    if t == [] {
      assert s + t == s;
    } else {
      var front := t[..|t| - 1];
      assert (s + t)[..|s + t| - 1] == s + front && t == front + [t[|t| - 1]];
      FindLastConcat(s, front, c);
    }
  }
}
