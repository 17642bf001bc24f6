/** File names of the frame spool. */
module SpoolNames {
  import opened LexOrder

  // The directory is a queue only because sorting the names is sorting by sequence
  // number; this module says exactly when it is.

  function Digit(n: nat): char
    requires n < 10
  {
    ('0' as int + n) as char
  }

  /** Decimal digits, zero-padded on the left to at least `width`. */
  function Decimal(n: nat, width: nat): string {
    if n < 10 && width <= 1 then [Digit(n)]
    else Decimal(n / 10, if width == 0 then 0 else width - 1) + [Digit(n % 10)]
  }

  function PowerOfTen(k: nat): nat {
    if k == 0 then 1 else 10 * PowerOfTen(k - 1)
  }

  const WIDTH := 12

  const LIMIT := 1_000_000_000_000

  lemma LimitIsPower()
    ensures PowerOfTen(WIDTH) == LIMIT
  {
    assert PowerOfTen(4) == 10000;
    assert PowerOfTen(8) == 10000 * PowerOfTen(4);
    assert PowerOfTen(12) == 10000 * PowerOfTen(8);
  }

  lemma {:induction false} DecimalLength(n: nat, width: nat)
    requires width >= 1 && n < PowerOfTen(width)
    ensures |Decimal(n, width)| == width
  {
    if width > 1 {
      DecimalLength(n / 10, width - 1);
    }
  }

  lemma {:induction false} DecimalOrdered(a: nat, b: nat, width: nat)
    requires width >= 1 && a < b < PowerOfTen(width)
    ensures |Decimal(a, width)| == |Decimal(b, width)| == width
    ensures Less(Decimal(a, width), Decimal(b, width))
  {
    DecimalLength(a, width);
    DecimalLength(b, width);
    if width > 1 {
      DecimalLength(a / 10, width - 1);
      DecimalLength(b / 10, width - 1);
      var p, q := Decimal(a / 10, width - 1), Decimal(b / 10, width - 1);
      if a / 10 < b / 10 {
        DecimalOrdered(a / 10, b / 10, width - 1);
        LessAsymmetric(p, q);
        LessByHead(p, q, [Digit(a % 10)], [Digit(b % 10)]);
      } else {
        LessAfterCommonPrefix(p, [Digit(a % 10)], [Digit(b % 10)]);
      }
    }
  }

  predicate IsSafe(c: char) {
    'A' <= c <= 'Z' || 'a' <= c <= 'z' || '0' <= c <= '9' || c == '_' || c == '.' || c == '-'
  }

  /** Each maximal run of other characters becomes one underscore. */
  function Sanitise(s: string, inRun: bool): string {
    if s == [] then []
    else if IsSafe(s[0]) then [s[0]] + Sanitise(s[1..], false)
    else (if inRun then [] else ['_']) + Sanitise(s[1..], true)
  }

  /** The node part of a file name has only safe characters. */
  lemma {:induction false} SanitisedIsSafe(s: string, inRun: bool)
    ensures forall i :: 0 <= i < |Sanitise(s, inRun)| ==> IsSafe(Sanitise(s, inRun)[i])
  {
    if s != [] {
      SanitisedIsSafe(s[1..], !IsSafe(s[0]));
    }
  }

  /** Safe names stay as they are. */
  lemma {:induction false} SafeNameStays(s: string, inRun: bool)
    requires forall i :: 0 <= i < |s| ==> IsSafe(s[i])
    ensures Sanitise(s, inRun) == s
  {
    if s != [] {
      SafeNameStays(s[1..], false);
    }
  }

  /** A run of unsafe characters becomes one underscore, whatever its length. */
  lemma {:induction false} RunBecomesOne(run: string, rest: string, inRun: bool)
    requires run != [] && forall i :: 0 <= i < |run| ==> !IsSafe(run[i])
    ensures Sanitise(run + rest, inRun) == (if inRun then [] else ['_']) + Sanitise(rest, true)
    decreases |run|
  {
    assert (run + rest)[1..] == run[1..] + rest;
    if |run| > 1 {
      RunBecomesOne(run[1..], rest, true);
    } else {
      assert run[1..] + rest == rest;
    }
  }

  /** What follows a safe character is sanitised by itself. */
  lemma SafeCharacterEndsRun(c: char, rest: string, inRun: bool)
    requires IsSafe(c)
    ensures Sanitise([c] + rest, inRun) == [c] + Sanitise(rest, false)
  {
    assert ([c] + rest)[1..] == rest;
  }

  /** The number that decimal digits stand for. */
  function ValueOf(s: string): int {
    if s == [] then 0 else 10 * ValueOf(s[..|s| - 1]) + (s[|s| - 1] as int - '0' as int)
  }

  /** The digits of a sequence number stand for it. */
  lemma {:induction false} DecimalValue(n: nat, width: nat)
    ensures ValueOf(Decimal(n, width)) == n
    decreases n, width
  {
    var s := Decimal(n, width);
    if n < 10 && width <= 1 {
      assert s[..0] == [];
    } else {
      DecimalValue(n / 10, if width == 0 then 0 else width - 1);
      assert s[..|s| - 1] == Decimal(n / 10, if width == 0 then 0 else width - 1);
    }
  }

  function FileName(node: string, sequence: nat, timestamp: string): string {
    Sanitise(node, false) + "-" + Decimal(sequence, WIDTH) + "-" + timestamp + ".json"
  }

  lemma FileNameParts(node: string, sequence: nat, timestamp: string)
    ensures FileName(node, sequence, timestamp)
         == (Sanitise(node, false) + "-") + (Decimal(sequence, WIDTH) + ("-" + timestamp + ".json"))
  {
  }

  /** Below the padding limit an earlier frame's file comes first, whatever the
      clock said when the two files were written. */
  lemma NamesFollowSequence(node: string, a: nat, b: nat, ta: string, tb: string)
    requires a < b < LIMIT
    ensures Less(FileName(node, a, ta), FileName(node, b, tb))
  {
    LimitIsPower();
    DecimalOrdered(a, b, WIDTH);
    var p, q := Decimal(a, WIDTH), Decimal(b, WIDTH);
    LessAsymmetric(p, q);
    LessByHead(p, q, "-" + ta + ".json", "-" + tb + ".json");
    FileNameParts(node, a, ta);
    FileNameParts(node, b, tb);
    LessAfterCommonPrefix(Sanitise(node, false) + "-", p + ("-" + ta + ".json"), q + ("-" + tb + ".json"));
  }

  lemma {:induction false} PaddedLengths(a: nat, b: nat, width: nat)
    requires width >= 1 && a == PowerOfTen(width) - 1 && b == PowerOfTen(width)
    ensures |Decimal(a, width)| == width && Decimal(a, width)[0] == '9'
    ensures |Decimal(b, width)| == width + 1 && Decimal(b, width)[0] == '1'
  {
    if width > 1 {
      PaddedLengths(a / 10, b / 10, width - 1);
    } else {
      assert Decimal(10, 1) == Decimal(1, 0) + ['0'];
      assert Decimal(1, 0) == ['1'];
    }
  }

  /** The thirteenth digit breaks the queue. */
  lemma LimitOvertakes(node: string, ta: string, tb: string)
    ensures Less(FileName(node, LIMIT, tb), FileName(node, LIMIT - 1, ta))
  {
    LimitIsPower();
    PaddedLengths(LIMIT - 1, LIMIT, WIDTH);
    var p, q := Decimal(LIMIT, WIDTH), Decimal(LIMIT - 1, WIDTH);
    FileNameParts(node, LIMIT, tb);
    FileNameParts(node, LIMIT - 1, ta);
    var x, y := p + ("-" + tb + ".json"), q + ("-" + ta + ".json");
    assert x[0] == '1' && y[0] == '9';
    assert Less(x, y);
    LessAfterCommonPrefix(Sanitise(node, false) + "-", x, y);
  }

  ghost predicate NamesAreFifoBelow(bound: nat) {
    forall node: string, a: nat, b: nat, ta: string, tb: string :: a < b < bound ==>
      Less(FileName(node, a, ta), FileName(node, b, tb))
  }

  /** The names form a FIFO for all sequences below a bound exactly when the
      bound does not exceed 10^12. */
  lemma FifoExactlyBelowLimit(bound: nat)
    ensures NamesAreFifoBelow(bound) <==> bound <= LIMIT
  {
    if bound <= LIMIT {
      forall node: string, a: nat, b: nat, ta: string, tb: string | a < b < bound
        ensures Less(FileName(node, a, ta), FileName(node, b, tb))
      {
        NamesFollowSequence(node, a, b, ta, tb);
      }
    } else {
      LimitOvertakes("", "", "");
      LessAsymmetric(FileName("", LIMIT, ""), FileName("", LIMIT - 1, ""));
      assert !NamesAreFifoBelow(bound);
    }
  }
}
