/** The parts of Python's `str` behaviour the script relies on: `isspace`, `isalnum`, `lower`,
    `endswith`, `split()`, `join` and `str(int)`. Case mapping and `isalnum` are the ASCII
    restrictions of Python's Unicode-aware versions. */
module Text {
  /** Python's `str.isspace` on a single character: the characters `str.split()` breaks on. */
  predicate IsSpace(c: char) {
    var n := c as int;
    (9 <= n <= 13) || (28 <= n <= 32) || n == 0x85 || n == 0xA0 || n == 0x1680
    || (0x2000 <= n <= 0x200A) || n == 0x2028 || n == 0x2029 || n == 0x202F
    || n == 0x205F || n == 0x3000
  }

  predicate IsAsciiDigit(c: char) {
    '0' <= c <= '9'
  }

  /** `str.isalnum` restricted to ASCII. */
  predicate IsAsciiAlnum(c: char) {
    IsAsciiDigit(c) || 'a' <= c <= 'z' || 'A' <= c <= 'Z'
  }

  /** `str.lower` on one character, ASCII letters only. */
  function LowerChar(c: char): (d: char)
    ensures d == '.' <==> c == '.'
    ensures d == '/' <==> c == '/'
  {
    if 'A' <= c <= 'Z' then (c as int - 'A' as int + 'a' as int) as char else c
  }

  function Lower(s: string): (r: string)
    ensures |r| == |s|
  {
    seq(|s|, i requires 0 <= i < |s| => LowerChar(s[i]))
  }

  /** What `str.lower` does to ASCII text: it leaves no upper-case letter, turns each upper-case
      letter into its lower-case partner, and keeps every other character as it is. */
  lemma LowerCases(s: string)
    ensures forall i :: 0 <= i < |s| ==> !('A' <= Lower(s)[i] <= 'Z')
    ensures forall i :: 0 <= i < |s| && !('A' <= s[i] <= 'Z') ==> Lower(s)[i] == s[i]
    ensures forall i :: 0 <= i < |s| && 'A' <= s[i] <= 'Z' ==>
      'a' <= Lower(s)[i] <= 'z' && Lower(s)[i] as int - s[i] as int == 'a' as int - 'A' as int
  {
  }

  /** Lower-casing twice is lower-casing once. */
  lemma LowerIdempotent(s: string)
    ensures Lower(Lower(s)) == Lower(s)
  {
    LowerCases(s);
  }

  lemma LowerAppend(a: string, b: string)
    ensures Lower(a + b) == Lower(a) + Lower(b)
  {
  }

  predicate EndsWith(s: string, suffix: string) {
    |suffix| <= |s| && s[|s| - |suffix|..] == suffix
  }

  /** A token of `str.split()`: non-empty and free of whitespace. */
  predicate IsWord(w: string) {
    |w| > 0 && forall i :: 0 <= i < |w| ==> !IsSpace(w[i])
  }

  /** Length of the whitespace-free run at the start of `s`. */
  function WordLen(s: string): (n: nat)
    requires |s| > 0 && !IsSpace(s[0])
    ensures 1 <= n <= |s|
    ensures forall i :: 0 <= i < n ==> !IsSpace(s[i])
    ensures n == |s| || IsSpace(s[n])
    decreases |s|
  {
    if |s| == 1 || IsSpace(s[1]) then 1 else 1 + WordLen(s[1..])
  }

  /** Python's `s.split()` with no separator: the maximal whitespace-free runs of `s`, in order. */
  function Split(s: string): (ws: seq<string>)
    ensures forall k :: 0 <= k < |ws| ==> IsWord(ws[k])
    decreases |s|
  {
    if |s| == 0 then []
    else if IsSpace(s[0]) then Split(s[1..])
    else
      var n := WordLen(s);
      [s[..n]] + Split(s[n..])
  }

  /** Python's `sep.join(ws)`. */
  function JoinWith(ws: seq<string>, sep: string): (r: string)
    ensures |ws| == 0 ==> r == []
    ensures |ws| > 0 ==> |r| >= |ws[0]|
  {
    if |ws| == 0 then []
    else if |ws| == 1 then ws[0]
    else ws[0] + sep + JoinWith(ws[1..], sep)
  }

  /** A join starts with the first part, followed by the separator when there is a second part,
      and ends with the last part. */
  lemma {:induction false} JoinWithEnds(ws: seq<string>, sep: string)
    requires |ws| > 0
    ensures var r := JoinWith(ws, sep);
      && r[..|ws[0]|] == ws[0]
      && (|ws| > 1 ==> |r| >= |ws[0]| + |sep| && r[|ws[0]|..|ws[0]| + |sep|] == sep)
      && EndsWith(r, ws[|ws| - 1])
  {
    if |ws| > 1 {
      JoinWithEnds(ws[1..], sep);
      var rest := JoinWith(ws[1..], sep);
      assert JoinWith(ws, sep) == ws[0] + sep + rest;
      assert ws[1..][|ws[1..]| - 1] == ws[|ws| - 1];
    }
  }

  /** A word followed by nothing or by whitespace splits off as the first token. */
  lemma {:induction false} SplitWordFirst(w: string, rest: string)
    requires IsWord(w)
    requires |rest| == 0 || IsSpace(rest[0])
    ensures Split(w + rest) == [w] + Split(rest)
  {
    var s := w + rest;
    WordLenOfWord(w, rest);
    assert s[..|w|] == w;
    assert s[|w|..] == rest;
  }

  lemma {:induction false} WordLenOfWord(w: string, rest: string)
    requires IsWord(w)
    requires |rest| == 0 || IsSpace(rest[0])
    ensures WordLen(w + rest) == |w|
    decreases |w|
  {
    var s := w + rest;
    if |w| == 1 {
    } else {
      assert s[1..] == w[1..] + rest;
      WordLenOfWord(w[1..], rest);
    }
  }

  /** Splitting around one whitespace character splits each side independently. */
  lemma {:induction false} SplitAround(a: string, sp: char, b: string)
    requires IsSpace(sp)
    ensures Split(a + [sp] + b) == Split(a) + Split(b)
    decreases |a|
  {
    if |a| == 0 {
      SplitSpaceFirst(sp, b);
      assert a + [sp] + b == [sp] + b;
    } else if IsSpace(a[0]) {
      SplitAround(a[1..], sp, b);
      SplitAroundSpaceStep(a, sp, b);
    } else if WordLen(a) == |a| {
      SplitAroundLastWord(a, sp, b);
    } else {
      var n := WordLen(a);
      SplitAround(a[n..], sp, b);
      SplitAroundWordStep(a, sp, b);
    }
  }

  /** The step of `SplitAround` past a leading whitespace character of `a`. */
  lemma SplitAroundSpaceStep(a: string, sp: char, b: string)
    requires |a| > 0 && IsSpace(a[0])
    requires Split(a[1..] + [sp] + b) == Split(a[1..]) + Split(b)
    ensures Split(a + [sp] + b) == Split(a) + Split(b)
  {
    SplitSpaceFirst(a[0], a[1..] + [sp] + b);
    SplitSpaceFirst(a[0], a[1..]);
    assert a + [sp] + b == [a[0]] + (a[1..] + [sp] + b);
    assert a == [a[0]] + a[1..];
  }

  /** `SplitAround` when `a` is a single word. */
  lemma SplitAroundLastWord(a: string, sp: char, b: string)
    requires IsSpace(sp) && |a| > 0 && !IsSpace(a[0]) && WordLen(a) == |a|
    ensures Split(a + [sp] + b) == Split(a) + Split(b)
  {
    assert IsWord(a);
    SplitWordSpace(a, sp, b);
    SplitWordFirst(a, []);
    assert a + [] == a;
  }

  /** The step of `SplitAround` past a leading word of `a` that does not end `a`. */
  lemma SplitAroundWordStep(a: string, sp: char, b: string)
    requires IsSpace(sp) && |a| > 0 && !IsSpace(a[0]) && WordLen(a) < |a|
    requires Split(a[WordLen(a)..] + [sp] + b) == Split(a[WordLen(a)..]) + Split(b)
    ensures Split(a + [sp] + b) == Split(a) + Split(b)
  {
    var n := WordLen(a);
    var w := a[..n];
    var t := a[n..];
    assert a == w + t;
    assert IsWord(w);
    assert a + [sp] + b == w + (t + [sp] + b);
    SplitWordFirst(w, t + [sp] + b);
    SplitWordFirst(w, t);
  }

  lemma SplitSpaceFirst(sp: char, b: string)
    requires IsSpace(sp)
    ensures Split([sp] + b) == Split(b)
  {
    assert ([sp] + b)[1..] == b;
  }

  lemma SplitWordSpace(w: string, sp: char, b: string)
    requires IsWord(w) && IsSpace(sp)
    ensures Split(w + [sp] + b) == [w] + Split(b)
  {
    var t := [sp] + b;
    assert w + [sp] + b == w + t;
    assert Split(w + t) == [w] + Split(t) by {
      SplitWordFirst(w, t);
    }
    SplitSpaceFirst(sp, b);
  }

  /** Round trip: splitting words joined by single spaces gives back the words. */
  lemma {:induction false} SplitJoin(ws: seq<string>)
    requires forall k :: 0 <= k < |ws| ==> IsWord(ws[k])
    ensures Split(JoinWith(ws, " ")) == ws
  {
    if |ws| == 1 {
      SplitWordFirst(ws[0], []);
      assert ws[0] + [] == ws[0];
    } else if |ws| > 1 {
      SplitJoin(ws[1..]);
      SplitJoinStep(ws);
    }
  }

  /** The step of `SplitJoin` past the first word. */
  lemma SplitJoinStep(ws: seq<string>)
    requires |ws| > 1 && IsWord(ws[0])
    requires Split(JoinWith(ws[1..], " ")) == ws[1..]
    ensures Split(JoinWith(ws, " ")) == ws
  {
    var rest := JoinWith(ws[1..], " ");
    assert JoinWith(ws, " ") == ws[0] + [' '] + rest by {
      JoinWithCons(ws, " ");
    }
    assert Split(ws[0] + [' '] + rest) == Split(ws[0]) + Split(rest) by {
      assert IsSpace(' ');
      SplitAround(ws[0], ' ', rest);
    }
    assert Split(ws[0]) == [ws[0]] by {
      SplitWordFirst(ws[0], []);
      assert ws[0] + [] == ws[0];
    }
    assert ws == [ws[0]] + ws[1..];
  }

  lemma JoinWithCons(ws: seq<string>, sep: string)
    requires |ws| > 1
    ensures JoinWith(ws, sep) == ws[0] + sep + JoinWith(ws[1..], sep)
  {
  }

  /** A character that occurs in a `sep`-join occurs in one of the parts or in `sep`. */
  lemma {:induction false} JoinWithChars(ws: seq<string>, sep: string, c: char)
    requires c in JoinWith(ws, sep)
    ensures c in sep || exists k :: 0 <= k < |ws| && c in ws[k]
  {
    if |ws| > 1 {
      var rest := JoinWith(ws[1..], sep);
      assert JoinWith(ws, sep) == ws[0] + sep + rest;
      if c in rest && c !in sep {
        JoinWithChars(ws[1..], sep, c);
        var k :| 0 <= k < |ws[1..]| && c in ws[1..][k];
        assert c in ws[k + 1];
      } else if c in ws[0] {
        assert c in ws[0];
      }
    } else if |ws| == 1 {
      assert c in ws[0];
    }
  }

  function DigitChar(d: nat): (c: char)
    requires d < 10
    ensures IsAsciiDigit(c)
  {
    ('0' as int + d) as char
  }

  /** Python's `str(n)` for a non-negative integer: decimal digits, no leading zeros. */
  function Decimal(n: nat): (s: string)
    ensures |s| > 0
    ensures forall i :: 0 <= i < |s| ==> IsAsciiDigit(s[i])
  {
    if n < 10 then [DigitChar(n)] else Decimal(n / 10) + [DigitChar(n % 10)]
  }

  /** The value of a string of decimal digits: the partner of `Decimal`. */
  function ParseDecimal(s: string): nat
    requires forall i :: 0 <= i < |s| ==> IsAsciiDigit(s[i])
  {
    if |s| == 0 then 0
    else
      assert IsAsciiDigit(s[|s| - 1]);
      ParseDecimal(s[..|s| - 1]) * 10 + (s[|s| - 1] as int - '0' as int)
  }

  lemma {:induction false} DecimalRoundTrip(n: nat)
    ensures ParseDecimal(Decimal(n)) == n
  {
    var s := Decimal(n);
    if n >= 10 {
      DecimalRoundTrip(n / 10);
      assert s[..|s| - 1] == Decimal(n / 10);
    }
  }

  /** Distinct numbers have distinct decimal representations. */
  lemma DecimalInjective(j: nat, k: nat)
    requires Decimal(j) == Decimal(k)
    ensures j == k
  {
    DecimalRoundTrip(j);
    DecimalRoundTrip(k);
  }
}
