/** String helpers the formatters and the `up` command rely on: ASCII case
    mapping (standing for `strings.ToUpper`/`ToLower` and `unicode.ToLower`),
    `strings.ReplaceAll(s, "::", ".")`, the byte-wise string order used by
    `sort.Strings`, decimal rendering (`fmt.Sprint` of an integer) and
    newline joining. */
module Text {

  // ---------------------------------------------------------------------
  // ASCII case mapping

  function LowerChar(c: char): char
  {
    if 'A' <= c <= 'Z' then (c as int + 32) as char else c
  }

  function UpperChar(c: char): char
  {
    if 'a' <= c <= 'z' then (c as int - 32) as char else c
  }

  predicate IsLowerAscii(c: char) { 'a' <= c <= 'z' }

  /** Lower-cases every ASCII letter and leaves every other character alone. */
  function ToLower(s: string): (r: string)
    ensures |r| == |s|
    ensures forall i :: 0 <= i < |s| ==> r[i] == LowerChar(s[i])
  {
    if |s| == 0 then [] else [LowerChar(s[0])] + ToLower(s[1..])
  }

  /** Upper-cases every ASCII letter and leaves every other character alone. */
  function ToUpper(s: string): (r: string)
    ensures |r| == |s|
    ensures forall i :: 0 <= i < |s| ==> r[i] == UpperChar(s[i])
    ensures forall i :: 0 <= i < |r| ==> !IsLowerAscii(r[i])
  {
    if |s| == 0 then [] else [UpperChar(s[0])] + ToUpper(s[1..])
  }

  // ---------------------------------------------------------------------
  // strings.ReplaceAll(s, "::", ".")

  /** No two adjacent colons anywhere in `s`. */
  predicate NoDoubleColon(s: string)
  {
    forall i :: 0 <= i < |s| - 1 ==> !(s[i] == ':' && s[i + 1] == ':')
  }

  /** Left-to-right, non-overlapping replacement of every `"::"` by `"."`. */
  function ReplaceDoubleColon(s: string): (r: string)
    ensures NoDoubleColon(r)
    ensures |r| <= |s|
    ensures |s| > 0 && s[0] != ':' ==> |r| > 0 && r[0] == s[0]
  {
    if |s| >= 2 && s[0] == ':' && s[1] == ':' then "." + ReplaceDoubleColon(s[2..])
    else if |s| == 0 then []
    else [s[0]] + ReplaceDoubleColon(s[1..])
  }

  /** A string without `"::"` is left unchanged by the replacement. */
  lemma {:induction false} ReplaceDoubleColonIdentity(s: string)
    requires NoDoubleColon(s)
    ensures ReplaceDoubleColon(s) == s
    decreases |s|
  {
    if |s| >= 1 {
      assert NoDoubleColon(s[1..]) by {
        forall i | 0 <= i < |s[1..]| - 1
          ensures !(s[1..][i] == ':' && s[1..][i + 1] == ':')
        {
          assert s[1..][i] == s[i + 1] && s[1..][i + 1] == s[i + 2];
        }
      }
      ReplaceDoubleColonIdentity(s[1..]);
    }
  }

  /** The first `"::"` becomes `"."`: text before it that holds no `"::"`
      and does not end in a colon is kept, and the replacement goes on
      after it. */
  lemma {:induction false} ReplaceDoubleColonAtFirst(a: string, b: string)
    requires NoDoubleColon(a) && (|a| == 0 || a[|a| - 1] != ':')
    ensures ReplaceDoubleColon(a + "::" + b) == a + "." + ReplaceDoubleColon(b)
    decreases |a|
  {
    var s := a + "::" + b;
    if |a| == 0 {
      assert s[2..] == b;
    } else {
      assert s[0] == a[0] && s[1] == (if |a| == 1 then ':' else a[1]);
      assert s[1..] == a[1..] + "::" + b;
      assert NoDoubleColon(a[1..]) by {
        forall i | 0 <= i < |a[1..]| - 1
          ensures !(a[1..][i] == ':' && a[1..][i + 1] == ':')
        {
          assert a[1..][i] == a[i + 1] && a[1..][i + 1] == a[i + 2];
        }
      }
      ReplaceDoubleColonAtFirst(a[1..], b);
      assert a == [a[0]] + a[1..];
    }
  }

  /** A colon-free character sequence. */
  predicate NoColon(s: string)
  {
    forall i :: 0 <= i < |s| ==> s[i] != ':'
  }

  /** A CloudFormation type name `Vendor::Service::Kind` has its separators
      turned into dots: `AWS::S3::Bucket` becomes `AWS.S3.Bucket`. */
  lemma ReplaceDoubleColonTypeName(vendor: string, service: string, kind: string)
    requires NoColon(vendor) && NoColon(service) && NoColon(kind)
    ensures ReplaceDoubleColon(vendor + "::" + service + "::" + kind) == vendor + "." + service + "." + kind
  {
    var tail := service + "::" + kind;
    ColonFreeSegment(kind);
    ColonFreeSegment(service);
    ColonFreeSegment(vendor);
    ReplaceDoubleColonIdentity(kind);
    ReplaceDoubleColonAtFirst(service, kind);
    ReplaceDoubleColonAtFirst(vendor, tail);
    ConcatRegroup(vendor, "::", service, "::", kind);
    ConcatRegroup(vendor, ".", service, ".", kind);
  }

  /** A colon-free segment holds no `"::"` and does not end in a colon. */
  lemma ColonFreeSegment(s: string)
    requires NoColon(s)
    ensures NoDoubleColon(s) && (|s| == 0 || s[|s| - 1] != ':')
  {
  }

  lemma ConcatRegroup(a: string, b: string, c: string, d: string, e: string)
    ensures a + b + c + d + e == a + b + (c + d + e)
  {
  }

  /** Replacing twice is replacing once. */
  lemma ReplaceDoubleColonIdempotent(s: string)
    ensures ReplaceDoubleColon(ReplaceDoubleColon(s)) == ReplaceDoubleColon(s)
  {
    ReplaceDoubleColonIdentity(ReplaceDoubleColon(s));
  }

  /** Lower-casing cannot create a `"::"`, since only `':'` lowers to `':'`. */
  lemma ToLowerKeepsNoDoubleColon(s: string)
    requires NoDoubleColon(s)
    ensures NoDoubleColon(ToLower(s))
  {
    var r := ToLower(s);
    forall i | 0 <= i < |r| - 1
      ensures !(r[i] == ':' && r[i + 1] == ':')
    {
      assert r[i] == LowerChar(s[i]) && r[i + 1] == LowerChar(s[i + 1]);
    }
  }

  // ---------------------------------------------------------------------
  // Newlines

  /** `s` fits on one line: it holds no newline character. */
  predicate NoNewline(s: string)
  {
    forall i :: 0 <= i < |s| ==> s[i] != '\n'
  }

  lemma NoNewlineConcat(a: string, b: string)
    requires NoNewline(a) && NoNewline(b)
    ensures NoNewline(a + b)
  {
    forall i | 0 <= i < |a + b| ensures (a + b)[i] != '\n' {
      if i < |a| { assert (a + b)[i] == a[i]; } else { assert (a + b)[i] == b[i - |a|]; }
    }
  }

  /** Case mapping sends no character to a newline except a newline. */
  lemma CaseMappingKeepsOneLine(s: string)
    requires NoNewline(s)
    ensures NoNewline(ToUpper(s)) && NoNewline(ToLower(s))
  {
  }

  /** The replacement only removes colons and writes dots, so it cannot
      introduce a newline. */
  lemma {:induction false} ReplaceDoubleColonKeepsOneLine(s: string)
    requires NoNewline(s)
    ensures NoNewline(ReplaceDoubleColon(s))
    decreases |s|
  {
    if |s| >= 2 && s[0] == ':' && s[1] == ':' {
      assert NoNewline(s[2..]) by {
        forall i | 0 <= i < |s[2..]| ensures s[2..][i] != '\n' { assert s[2..][i] == s[i + 2]; }
      }
      ReplaceDoubleColonKeepsOneLine(s[2..]);
      NoNewlineConcat(".", ReplaceDoubleColon(s[2..]));
    } else if |s| > 0 {
      assert NoNewline(s[1..]) by {
        forall i | 0 <= i < |s[1..]| ensures s[1..][i] != '\n' { assert s[1..][i] == s[i + 1]; }
      }
      ReplaceDoubleColonKeepsOneLine(s[1..]);
      NoNewlineConcat([s[0]], ReplaceDoubleColon(s[1..]));
    }
  }

  // ---------------------------------------------------------------------
  // String order used by sort.Strings

  /** Lexicographic order on code points. Go compares strings byte-wise on
      their UTF-8 encoding, and UTF-8 preserves code-point order, so this is
      the same order. */
  predicate Less(a: string, b: string)
  {
    if |a| == 0 then |b| > 0
    else if |b| == 0 then false
    else if a[0] != b[0] then a[0] < b[0]
    else Less(a[1..], b[1..])
  }

  lemma {:induction false} LessIrreflexive(a: string)
    ensures !Less(a, a)
    decreases |a|
  {
    if |a| > 0 { LessIrreflexive(a[1..]); }
  }

  lemma {:induction false} LessAsymmetric(a: string, b: string)
    requires Less(a, b)
    ensures !Less(b, a)
    decreases |a|
  {
    if |a| > 0 && |b| > 0 && a[0] == b[0] { LessAsymmetric(a[1..], b[1..]); }
  }

  lemma {:induction false} LessTransitive(a: string, b: string, c: string)
    requires Less(a, b) && Less(b, c)
    ensures Less(a, c)
    decreases |a|
  {
    if |a| > 0 && |b| > 0 && |c| > 0 && a[0] == b[0] && b[0] == c[0] {
      LessTransitive(a[1..], b[1..], c[1..]);
    }
  }

  lemma {:induction false} LessTotal(a: string, b: string)
    requires a != b
    ensures Less(a, b) || Less(b, a)
    decreases |a|
  {
    if |a| > 0 && |b| > 0 && a[0] == b[0] {
      assert a == [a[0]] + a[1..] && b == [b[0]] + b[1..];
      LessTotal(a[1..], b[1..]);
    }
  }

  /** Strictly ascending, hence also free of duplicates. */
  predicate StrictlySorted(s: seq<string>)
  {
    forall i, j :: 0 <= i < j < |s| ==> Less(s[i], s[j])
  }

  function Elems(s: seq<string>): set<string>
  {
    set x | x in s
  }

  /** Inserts a new key into a strictly sorted sequence at its place. */
  function Insert(x: string, s: seq<string>): (r: seq<string>)
    requires StrictlySorted(s) && x !in s
    ensures StrictlySorted(r)
    ensures Elems(r) == Elems(s) + {x}
    ensures |r| == |s| + 1
  {
    if |s| == 0 then [x]
    else if Less(x, s[0]) then
      assert forall j :: 0 < j < |s| ==> Less(x, s[j]) by {
        forall j | 0 < j < |s| ensures Less(x, s[j]) { LessTransitive(x, s[0], s[j]); }
      }
      [x] + s
    else
      LessTotal(x, s[0]);
      var rest := Insert(x, s[1..]);
      assert Elems(s) == {s[0]} + Elems(s[1..]);
      forall y | y in rest ensures Less(s[0], y) {
        assert y in Elems(rest);
        if y != x {
          assert y in Elems(s[1..]);
          var k :| 0 <= k < |s[1..]| && s[1..][k] == y;
          assert s[k + 1] == y;
        }
      }
      [s[0]] + rest
  }

  /** Two strictly sorted sequences with the same elements are equal: the
      order they are listed in cannot depend on how they were collected. */
  lemma {:induction false} SortedUnique(a: seq<string>, b: seq<string>)
    requires StrictlySorted(a) && StrictlySorted(b) && Elems(a) == Elems(b)
    ensures a == b
    decreases |a|
  {
    if |a| > 0 {
      assert b != [] by { assert a[0] in Elems(b); }
      if a[0] != b[0] {
        // The smaller of the two heads would have to come after the larger.
        assert a[0] in Elems(b) && b[0] in Elems(a);
        LessTotal(a[0], b[0]);
        if Less(a[0], b[0]) {
          LessAsymmetric(a[0], b[0]);
        }
        assert false;
      }
      assert Elems(a[1..]) == Elems(b[1..]) by {
        forall y | y in a[1..] ensures y in b[1..] {
          var k :| 0 <= k < |a[1..]| && a[1..][k] == y;
          assert a[k + 1] == y && Less(a[0], a[k + 1]);
          LessIrreflexive(a[0]);
          assert y in Elems(b);
          var m :| 0 <= m < |b| && b[m] == y;
          assert m != 0;
          assert b[1..][m - 1] == y;
        }
        forall y | y in b[1..] ensures y in a[1..] {
          var k :| 0 <= k < |b[1..]| && b[1..][k] == y;
          assert b[k + 1] == y && Less(b[0], b[k + 1]);
          LessIrreflexive(b[0]);
          assert y in Elems(a);
          var m :| 0 <= m < |a| && a[m] == y;
          assert m != 0;
          assert a[1..][m - 1] == y;
        }
      }
      SortedUnique(a[1..], b[1..]);
      assert a == [a[0]] + a[1..] && b == [b[0]] + b[1..];
    } else {
      NoElemsIsEmpty(b);
    }
  }

  lemma NoElemsIsEmpty(s: seq<string>)
    ensures Elems(s) == {} ==> s == []
  {
    if |s| > 0 { assert s[0] in Elems(s); }
  }

  /** The ascending listing of a finite set of keys. */
  ghost function SortedOf(keys: set<string>): (r: seq<string>)
    ensures StrictlySorted(r) && Elems(r) == keys
    decreases keys
  {
    if keys == {} then []
    else
      var k :| k in keys;
      Insert(k, SortedOf(keys - {k}))
  }

  // ---------------------------------------------------------------------
  // Decimal rendering

  predicate IsDigit(c: char) { '0' <= c <= '9' }

  function DigitChar(d: nat): (c: char)
    requires d < 10
    ensures IsDigit(c) && c as int - '0' as int == d
  {
    ('0' as int + d) as char
  }

  /** The value of a string of decimal digits. */
  function DecimalValue(s: string): nat
    requires forall i :: 0 <= i < |s| ==> IsDigit(s[i])
  {
    if |s| == 0 then 0
    else
      assert IsDigit(s[|s| - 1]);
      DecimalValue(s[..|s| - 1]) * 10 + (s[|s| - 1] as int - '0' as int)
  }

  /** The shortest decimal digits of `n` (no leading zero except for 0). */
  function NatToDecimal(n: nat): (r: string)
    ensures |r| > 0
    ensures forall i :: 0 <= i < |r| ==> IsDigit(r[i])
    ensures |r| > 1 ==> r[0] != '0'
  {
    if n < 10 then [DigitChar(n)] else NatToDecimal(n / 10) + [DigitChar(n % 10)]
  }

  /** Reading the digits back gives the number. */
  lemma {:induction false} DecimalRoundTrip(n: nat)
    ensures DecimalValue(NatToDecimal(n)) == n
  {
    if n >= 10 {
      var s := NatToDecimal(n);
      assert s[..|s| - 1] == NatToDecimal(n / 10);
      DecimalRoundTrip(n / 10);
    }
  }

  /** `fmt.Sprint` of a signed integer: a minus sign before the magnitude. */
  function IntToDecimal(i: int): string
  {
    if i < 0 then "-" + NatToDecimal(-i) else NatToDecimal(i)
  }

  // ---------------------------------------------------------------------
  // Joining lines

  /** The lines separated by single newlines, with no trailing newline. */
  function JoinLines(lines: seq<string>): string
  {
    if |lines| == 0 then ""
    else if |lines| == 1 then lines[0]
    else lines[0] + "\n" + JoinLines(lines[1..])
  }

  /** Three lines joined: two separators. */
  lemma JoinThree(a: string, b: string, c: string)
    ensures JoinLines([a, b, c]) == a + "\n" + b + "\n" + c
  {
    assert JoinLines([b, c]) == b + "\n" + c by {
      assert [b, c][1..] == [c];
    }
    assert JoinLines([a, b, c]) == a + "\n" + JoinLines([b, c]) by {
      assert [a, b, c][1..] == [b, c];
    }
  }

  /** Appending a line to a non-empty list appends one separator and the line. */
  lemma {:induction false} JoinLinesSnoc(lines: seq<string>, line: string)
    requires |lines| > 0
    ensures JoinLines(lines + [line]) == JoinLines(lines) + "\n" + line
    decreases |lines|
  {
    if |lines| > 1 {
      assert (lines + [line])[1..] == lines[1..] + [line];
      JoinLinesSnoc(lines[1..], line);
    } else {
      assert (lines + [line])[1..] == [line];
    }
  }
}
