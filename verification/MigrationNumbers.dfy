/**
 Numbered migration filenames: the "NNNN_" prefix, the next number that
 `migrate new` picks (cmd/maubase/migrate.go), and the resolution of a target
 version (internal/db/migrate.go).
 */
module MigrationNumbers {
  import opened Prelude
  import opened Text

  const MAX_INT := 0x7FFF_FFFF_FFFF_FFFF

  predicate IsDigit(c: char) {
    '0' <= c <= '9'
  }

  predicate AllDigits(s: string) {
    forall i :: 0 <= i < |s| ==> IsDigit(s[i])
  }

  function DigitOf(c: char): nat
    requires IsDigit(c)
  {
    c as int - '0' as int
  }

  function CharOf(d: nat): (c: char)
    requires d < 10
    ensures IsDigit(c) && DigitOf(c) == d
  {
    ('0' as int + d) as char
  }

  function Pow10(n: nat): nat {
    if n == 0 then 1 else 10 * Pow10(n - 1)
  }

  /** The number a string of digits denotes. */
  function Value(s: string): nat
    requires AllDigits(s)
  {
    if s == "" then 0 else DigitOf(s[0]) * Pow10(|s| - 1) + Value(s[1..])
  }

  /** strconv.Atoi: an optional sign, at least one digit, and a value that fits. */
  function Atoi(s: string): Option<int> {
    var signed := s != "" && (s[0] == '-' || s[0] == '+');
    var digits := if signed then s[1..] else s;
    if digits == "" || !AllDigits(digits) then None
    else
      var value: int := Value(digits);
      var n := if signed && s[0] == '-' then -value else value;
      if -MAX_INT - 1 <= n <= MAX_INT then Some(n) else None
  }

  function DigitRun(s: string): (n: nat)
    ensures n <= |s| && AllDigits(s[..n])
    ensures n < |s| ==> !IsDigit(s[n])
  {
    if s == "" || !IsDigit(s[0]) then 0
    else
      assert s[..1 + DigitRun(s[1..])] == [s[0]] + s[1..][..DigitRun(s[1..])];
      1 + DigitRun(s[1..])
  }

  /** The digits that `^(\d+)_` captures. */
  function NumberPrefix(name: string): (p: Option<string>)
    ensures p.Some? ==> AllDigits(p.value) && p.value != ""
  {
    var n := DigitRun(name);
    if 0 < n < |name| && name[n] == '_' then Some(name[..n]) else None
  }

  /** The number a filename carries, if it carries one that fits an int. */
  function NumberOf(name: string): (n: Option<int>)
    ensures n.Some? ==> n.value >= 0 && NumberPrefix(name).Some?
  {
    match NumberPrefix(name)
    case None => None
    case Some(digits) =>
      assert IsDigit(digits[0]);
      Atoi(digits)
  }

  // ----- Printing numbers ----------------------------------------------------

  function Digits(n: nat): (s: string)
    ensures AllDigits(s) && s != ""
  {
    if n < 10 then [CharOf(n)] else Digits(n / 10) + [CharOf(n % 10)]
  }

  function Zeros(n: nat): (s: string)
    ensures AllDigits(s) && |s| == n
  {
    seq(n, _ => '0')
  }

  /** fmt's %0*d for a non-negative number. */
  function Pad(width: nat, n: nat): (s: string)
    ensures AllDigits(s) && s != ""
  {
    var digits := Digits(n);
    if |digits| < width then Zeros(width - |digits|) + digits else digits
  }

  function Filename(width: nat, number: nat, slug: string): string {
    Pad(width, number) + ("_" + slug + ".sql")
  }

  // ----- The next number -----------------------------------------------------

  datatype Scan = Scan(number: nat, width: nat)

  /** One file's effect on the scan for the highest number. */
  function ScanOne(scan: Scan, name: string): Scan {
    match NumberOf(name)
    case None => scan
    case Some(n) => if n >= scan.number then Scan(n, |NumberPrefix(name).value|) else scan
  }

  function ScanAll(names: seq<string>): Scan {
    if names == [] then Scan(0, 4)
    else ScanOne(ScanAll(names[..|names| - 1]), names[|names| - 1])
  }

  /** nextMigrationNumber: one past the highest number, and the width of the file that has it. */
  method NextMigrationNumber(names: seq<string>) returns (number: nat, width: nat)
    ensures number == ScanAll(names).number + 1 && width == ScanAll(names).width
  {
    number, width := 0, 4;
    for i := 0 to |names|
      invariant Scan(number, width) == ScanAll(names[..i])
    {
      assert names[..i + 1][..i] == names[..i];
      var n := NumberOf(names[i]);
      if n.Some? && n.value >= number {
        number, width := n.value, |NumberPrefix(names[i]).value|;
      }
    }
    assert names[..|names|] == names;
    number := number + 1;
  }

  // ----- Resolving a target version ------------------------------------------

  function Matching(names: seq<string>, n: int): seq<string> {
    if names == [] then []
    else
      var before := Matching(names[..|names| - 1], n);
      if NumberOf(names[|names| - 1]) == Some(n) then before + [names[|names| - 1]] else before
  }

  /** resolveVersion: an exact filename first, else the one file with that number. */
  function Resolve(names: seq<string>, target: string): Option<string> {
    if target in names then Some(target)
    else
      match Atoi(target)
      case None => None
      case Some(n) => if |Matching(names, n)| == 1 then Some(Matching(names, n)[0]) else None
  }

  method ResolveVersion(names: seq<string>, target: string) returns (found: Option<string>)
    ensures found == Resolve(names, target)
  {
    if target in names {
      return Some(target);
    }
    var n := Atoi(target);
    if n.None? {
      return None;
    }
    var matches := [];
    for i := 0 to |names|
      invariant matches == Matching(names[..i], n.value)
    {
      assert names[..i + 1][..i] == names[..i];
      if NumberOf(names[i]) == n {
        matches := matches + [names[i]];
      }
    }
    assert names[..|names|] == names;
    return if |matches| == 1 then Some(matches[0]) else None;
  }

  // ----- Properties ----------------------------------------------------------

  lemma {:induction false} ValueBelowPow10(s: string)
    requires AllDigits(s)
    ensures Value(s) < Pow10(|s|)
  {
    if s != "" {
      ValueBelowPow10(s[1..]);
      LeadingDigitDecides(DigitOf(s[0]), 10, Pow10(|s| - 1), Value(s[1..]), 0);
    }
  }

  lemma TimesTen(d: nat, p: nat)
    ensures d * (10 * p) == 10 * (d * p)
  {
  }

  lemma {:induction false} ValueOfSnoc(s: string, c: char)
    requires AllDigits(s) && IsDigit(c)
    ensures Value(s + [c]) == 10 * Value(s) + DigitOf(c)
  {
    if s == "" {
      assert (s + [c])[1..] == "";
      assert Value(s + [c]) == DigitOf(c) * Pow10(0) + Value("");
    } else {
      assert (s + [c])[1..] == s[1..] + [c];
      ValueOfSnoc(s[1..], c);
      TimesTen(DigitOf(s[0]), Pow10(|s| - 1));
    }
  }

  lemma {:induction false} ValueOfDigits(n: nat)
    ensures Value(Digits(n)) == n
  {
    if n < 10 {
      assert Digits(n)[1..] == "" && Value("") == 0;
      assert Value(Digits(n)) == DigitOf(CharOf(n)) * Pow10(0) + Value("");
    } else {
      ValueOfDigits(n / 10);
      ValueOfSnoc(Digits(n / 10), CharOf(n % 10));
    }
  }

  lemma {:induction false} LeadingZeros(k: nat, s: string)
    requires AllDigits(s)
    ensures AllDigits(Zeros(k) + s) && Value(Zeros(k) + s) == Value(s)
  {
    if k == 0 {
      assert Zeros(k) + s == s;
    } else {
      LeadingZeros(k - 1, s);
      assert (Zeros(k) + s)[1..] == Zeros(k - 1) + s;
      assert DigitOf((Zeros(k) + s)[0]) == 0;
    }
  }

  lemma {:induction false} DigitsLength(n: nat, w: nat)
    requires 0 < w && n < Pow10(w)
    ensures |Digits(n)| <= w
  {
    if n >= 10 {
      assert Pow10(1) == 10 * Pow10(0);
      assert w > 1;
      assert n / 10 < Pow10(w - 1);
      DigitsLength(n / 10, w - 1);
    }
  }

  /** Padding keeps the value, and the width too exactly when the number fits it. */
  lemma PadIsExact(w: nat, n: nat)
    requires 0 < w
    ensures Value(Pad(w, n)) == n && |Pad(w, n)| >= w
    ensures |Pad(w, n)| == w <==> n < Pow10(w)
  {
    ValueOfDigits(n);
    ValueBelowPow10(Digits(n));
    if n < Pow10(w) {
      DigitsLength(n, w);
    }
    if |Digits(n)| < w {
      LeadingZeros(w - |Digits(n)|, Digits(n));
      ValueBelowPow10(Pad(w, n));
    }
  }

  lemma LeadingDigitDecides(x: nat, y: nat, p: nat, r: nat, t: nat)
    requires x < y && r < p
    ensures x * p + r < y * p + t
  {
    assert (x + 1) * p <= y * p;
  }

  /** Numbers printed at one width compare bytewise exactly as they compare as numbers. */
  lemma {:induction false} SameWidthOrder(a: string, b: string)
    requires AllDigits(a) && AllDigits(b) && |a| == |b|
    ensures Value(a) < Value(b) <==> Less(a, b)
  {
    if a != "" {
      var x, y, p := DigitOf(a[0]), DigitOf(b[0]), Pow10(|a| - 1);
      var r, t := Value(a[1..]), Value(b[1..]);
      ValueBelowPow10(a[1..]);
      ValueBelowPow10(b[1..]);
      if x < y {
        LeadingDigitDecides(x, y, p, r, t);
      } else if y < x {
        LeadingDigitDecides(y, x, p, t, r);
      } else {
        SameWidthOrder(a[1..], b[1..]);
        assert a[0] == b[0];
      }
    }
  }

  /** A digit string followed by '_' is read back as the filename's number. */
  lemma {:induction false} PrefixOfNumbered(digits: string, rest: string)
    requires AllDigits(digits) && digits != ""
    ensures NumberPrefix(digits + ("_" + rest)) == Some(digits)
  {
    RunOfNumbered(digits, rest);
    var name := digits + ("_" + rest);
    assert name[..|digits|] == digits && name[|digits|] == '_';
  }

  lemma {:induction false} RunOfNumbered(digits: string, rest: string)
    requires AllDigits(digits)
    ensures DigitRun(digits + ("_" + rest)) == |digits|
  {
    var name := digits + ("_" + rest);
    if digits == "" {
      assert name[0] == '_';
    } else {
      assert name[1..] == digits[1..] + ("_" + rest);
      RunOfNumbered(digits[1..], rest);
    }
  }

  lemma SplitAtNumber(name: string, digits: string)
    requires NumberPrefix(name) == Some(digits)
    ensures name == digits + name[|digits|..] && name[|digits|] == '_'
  {
  }

  // ----- Order between a scaffolded file and the others ------------------------

  function Shorter(a: string, b: string): (k: nat)
    ensures k <= |a| && k <= |b| && (k == |a| || k == |b|)
  {
    if |a| < |b| then |a| else |b|
  }

  /**
   Whether a file numbered `digits` is listed before one numbered `p`: by their
   leading digits, over the shorter length, and on a tie if its number is the longer.
   */
  predicate NumberedBefore(digits: string, p: string)
    requires AllDigits(digits) && AllDigits(p)
  {
    var k := Shorter(digits, p);
    Value(digits[..k]) < Value(p[..k]) || (Value(digits[..k]) == Value(p[..k]) && |p| < |digits|)
  }

  /** What a file already there has to satisfy for a file numbered `p` to come after it. */
  predicate ListedBelow(name: string, p: string)
    requires AllDigits(p)
  {
    match NumberPrefix(name)
    case Some(digits) => NumberedBefore(digits, p)
    case None => Less(name, p + "_")
  }

  lemma CompareHeads(a: string, b: string, x: string, y: string)
    requires |a| == |b|
    ensures Less(a + x, b + y) <==> Less(a, b) || (a == b && Less(x, y))
  {
    LessTotal(a, b);
    if Less(a, b) {
      LessByPrefix(a, b, x, y);
    } else if a == b {
      LessIrreflexive(a);
      LessCommonPrefix(a, x, y);
    } else {
      LessByPrefix(b, a, y, x);
      LessAsymmetric(b + y, a + x);
    }
  }

  lemma SameValueSameDigits(a: string, b: string)
    requires AllDigits(a) && AllDigits(b) && |a| == |b|
    ensures Value(a) == Value(b) <==> a == b
  {
    SameWidthOrder(a, b);
    SameWidthOrder(b, a);
    LessTotal(a, b);
    LessIrreflexive(a);
  }

  lemma NumberedOrder(digits: string, p: string, s: string, t: string)
    requires AllDigits(digits) && AllDigits(p) && digits != p
    ensures Less(digits + ("_" + s), p + ("_" + t)) <==> NumberedBefore(digits, p)
  {
    var k := Shorter(digits, p);
    var a, b, x, y := digits[..k], p[..k], digits[k..] + ("_" + s), p[k..] + ("_" + t);
    assert digits + ("_" + s) == a + x && p + ("_" + t) == b + y;
    CompareHeads(a, b, x, y);
    SameWidthOrder(a, b);
    SameValueSameDigits(a, b);
    if |digits| < |p| {
      assert x[0] == '_' && y[0] == p[k];
    } else if |p| < |digits| {
      assert x[0] == digits[k] && y[0] == '_';
    } else {
      assert a == digits && b == p;
    }
  }

  lemma PrefixOfTails(b: string, a: string)
    requires a != "" && b != "" && a[0] == b[0]
    ensures b <= a <==> b[1..] <= a[1..]
  {
    if b[1..] <= a[1..] {
      assert forall i :: 0 < i < |b| ==> b[i] == b[1..][i - 1] == a[1..][i - 1] == a[i];
    }
  }

  /** Appending to b changes nothing unless a goes on from b. */
  lemma {:induction false} LessWhenLonger(a: string, b: string, t: string)
    requires !(b <= a)
    ensures Less(a, b + t) <==> Less(a, b)
  {
    if a != "" && a[0] == b[0] {
      assert (b + t)[1..] == b[1..] + t;
      PrefixOfTails(b, a);
      LessWhenLonger(a[1..], b[1..], t);
    }
  }

  lemma UnnumberedOrder(name: string, p: string, t: string)
    requires AllDigits(p) && p != "" && NumberPrefix(name).None?
    ensures Less(name, p + ("_" + t)) <==> Less(name, p + "_")
  {
    if p + "_" <= name {
      var rest := name[|p| + 1..];
      assert name == p + ("_" + rest);
      PrefixOfNumbered(p, rest);
    }
    assert p + ("_" + t) == (p + "_") + t;
    LessWhenLonger(name, p + "_", t);
  }

  lemma {:induction false} ScanIsMaximum(names: seq<string>)
    ensures forall name :: name in names && NumberOf(name).Some? ==> NumberOf(name).value <= ScanAll(names).number
    ensures ScanAll(names).width > 0
    ensures || ScanAll(names) == Scan(0, 4)
            || exists name :: name in names && NumberOf(name) == Some(ScanAll(names).number)
                              && |NumberPrefix(name).value| == ScanAll(names).width
  {
    if names != [] {
      var front, last := names[..|names| - 1], names[|names| - 1];
      assert names == front + [last];
      ScanIsMaximum(front);
      if ScanAll(names) == ScanAll(front) {
        if name :| name in front && NumberOf(name) == Some(ScanAll(front).number)
                   && |NumberPrefix(name).value| == ScanAll(front).width {
          assert name in names;
        }
      } else {
        assert last in names;
      }
    }
  }

  /** Among the first k names the i-th has the highest number, and is the last that has it. */
  predicate LastHighest(names: seq<string>, k: nat, i: nat)
    requires k <= |names|
  {
    && i < k && NumberOf(names[i]).Some?
    && (forall j :: 0 <= j < i && NumberOf(names[j]).Some? ==> NumberOf(names[j]).value <= NumberOf(names[i]).value)
    && (forall j :: i < j < k && NumberOf(names[j]).Some? ==> NumberOf(names[j]).value < NumberOf(names[i]).value)
  }

  predicate Unnumbered(names: seq<string>) {
    forall j :: 0 <= j < |names| ==> NumberOf(names[j]) == None
  }

  lemma {:induction false} ScanOfUnnumbered(names: seq<string>)
    requires Unnumbered(names)
    ensures ScanAll(names) == Scan(0, 4)
  {
    hide NumberOf;
    if names != [] {
      ScanOfUnnumbered(names[..|names| - 1]);
    }
  }

  lemma {:induction false} ScanOfHighest(names: seq<string>, k: nat, i: nat)
    requires k <= |names| && LastHighest(names, k, i)
    ensures ScanAll(names[..k]) == Scan(NumberOf(names[i]).value, |NumberPrefix(names[i]).value|)
  {
    hide NumberPrefix, NumberOf;
    assert names[..k][..k - 1] == names[..k - 1];
    if i == k - 1 {
      BelowScan(names, k - 1, NumberOf(names[i]).value);
    } else {
      ScanOfHighest(names, k - 1, i);
    }
  }

  /**
   The next number is one past the highest; of several files with the highest number
   the one listed last gives the width; with no numbered file they are 1 and 4.
   */
  lemma NextNumberIs(names: seq<string>, slug: string, i: nat)
    ensures Unnumbered(names) ==> NextFile(names, slug) == Filename(4, 1, slug)
    ensures LastHighest(names, |names|, i) ==>
      NextFile(names, slug) == Filename(|NumberPrefix(names[i]).value|, NumberOf(names[i]).value + 1, slug)
  {
    hide NumberPrefix, NumberOf, Filename, LastHighest, ScanAll, Unnumbered;
    assert names[..|names|] == names;
    if Unnumbered(names) {
      ScanOfUnnumbered(names);
    }
    if LastHighest(names, |names|, i) {
      ScanOfHighest(names, |names|, i);
    }
  }

  lemma BelowScan(names: seq<string>, k: nat, n: int)
    requires k <= |names| && n >= 0
    requires forall j :: 0 <= j < k && NumberOf(names[j]).Some? ==> NumberOf(names[j]).value <= n
    ensures ScanAll(names[..k]).number <= n
  {
    ScanIsMaximum(names[..k]);
    hide ScanAll, NumberOf;
    if name :| name in names[..k] && NumberOf(name) == Some(ScanAll(names[..k]).number) {
      var j :| 0 <= j < k && names[j] == name;
    }
  }

  lemma {:induction false} NoMatch(names: seq<string>, n: int)
    requires forall name :: name in names ==> NumberOf(name) != Some(n)
    ensures Matching(names, n) == []
  {
    if names != [] {
      assert names[|names| - 1] in names;
      NoMatch(names[..|names| - 1], n);
    }
  }

  lemma NumberOfPadded(w: nat, n: nat, slug: string)
    requires 0 < w && n <= MAX_INT
    ensures NumberPrefix(Filename(w, n, slug)) == Some(Pad(w, n)) && NumberOf(Filename(w, n, slug)) == Some(n)
  {
    PadIsExact(w, n);
    assert "_" + slug + ".sql" == "_" + (slug + ".sql");
    PrefixOfNumbered(Pad(w, n), slug + ".sql");
    assert IsDigit(Pad(w, n)[0]);
  }

  lemma NumberOfIsValue(name: string)
    requires NumberOf(name).Some?
    ensures NumberOf(name).value == Value(NumberPrefix(name).value)
  {
    assert IsDigit(NumberPrefix(name).value[0]);
  }

  /** The number and slot `migrate new` picks: the next one, at the width of the highest. */
  function NextPad(names: seq<string>): (p: string)
    ensures AllDigits(p) && p != ""
  {
    Pad(ScanAll(names).width, ScanAll(names).number + 1)
  }

  function NextFile(names: seq<string>, slug: string): string {
    Filename(ScanAll(names).width, ScanAll(names).number + 1, slug)
  }

  lemma NextNumberIsNew(names: seq<string>, name: string)
    requires ScanAll(names).number < MAX_INT && name in names
    ensures NumberOf(name) != Some(ScanAll(names).number + 1) && NumberPrefix(name) != Some(NextPad(names))
  {
    ScanIsMaximum(names);
    PadIsExact(ScanAll(names).width, ScanAll(names).number + 1);
    if NumberPrefix(name) == Some(NextPad(names)) {
      assert IsDigit(NextPad(names)[0]);
    }
  }

  lemma ListedBelowExactly(names: seq<string>, slug: string, name: string)
    requires ScanAll(names).number < MAX_INT && name in names
    ensures Less(name, NextFile(names, slug)) <==> ListedBelow(name, NextPad(names))
  {
    var p := NextPad(names);
    assert NextFile(names, slug) == p + ("_" + (slug + ".sql"));
    NextNumberIsNew(names, name);
    hide Less, NumberedBefore, NumberPrefix, Pad, ScanAll;
    match NumberPrefix(name)
    case Some(digits) =>
      SplitAtNumber(name, digits);
      var rest := name[|digits| + 1..];
      assert name == digits + ("_" + rest);
      NumberedOrder(digits, p, rest, slug + ".sql");
    case None => UnnumberedOrder(name, p, slug + ".sql");
  }

  /**
   A scaffolded file sorts after every existing one if and only if each of them,
   numbered or not, is listed below the next number: for any directory and slug.
   */
  lemma ScaffoldedFileIsLastIff(names: seq<string>, slug: string)
    requires ScanAll(names).number < MAX_INT
    ensures (forall name :: name in names ==> Less(name, NextFile(names, slug))) <==>
            (forall name :: name in names ==> ListedBelow(name, NextPad(names)))
  {
    forall name | name in names
      ensures Less(name, NextFile(names, slug)) <==> ListedBelow(name, NextPad(names))
    {
      ListedBelowExactly(names, slug, name);
    }
    hide Less, ListedBelow, NextFile, NextPad;
  }

  /** A file that does not start with a digit: whether it is listed below depends on its first character alone. */
  lemma PlainNameOrder(name: string, p: string)
    requires AllDigits(p) && p != "" && name != "" && !IsDigit(name[0])
    ensures ListedBelow(name, p) <==> name[0] < '0'
  {
    assert NumberPrefix(name).None?;
    assert (p + "_")[0] == p[0];
  }

  /** Every number is printed at the width of the highest one; unnumbered files may be there too. */
  predicate OneWidth(names: seq<string>) {
    forall name :: name in names && NumberPrefix(name).Some? ==>
      NumberOf(name).Some? && |NumberPrefix(name).value| == ScanAll(names).width
  }

  predicate UnnumberedBelow(names: seq<string>) {
    forall name :: name in names && NumberPrefix(name).None? ==> Less(name, NextPad(names) + "_")
  }

  lemma FittingNumberIsBelow(names: seq<string>, name: string)
    requires OneWidth(names) && name in names && NumberPrefix(name).Some?
    requires ScanAll(names).number + 1 < Pow10(ScanAll(names).width)
    ensures ListedBelow(name, NextPad(names))
  {
    var w := ScanAll(names).width;
    ScanIsMaximum(names);
    NumberOfIsValue(name);
    PadIsExact(w, ScanAll(names).number + 1);
    var digits, p := NumberPrefix(name).value, NextPad(names);
    assert digits[..w] == digits && p[..w] == p;
  }

  /** The highest number of a full width is not listed below the next, which needs one digit more. */
  lemma OutgrownNumberIsNot(names: seq<string>) returns (name: string)
    requires OneWidth(names)
    requires ScanAll(names).number + 1 >= Pow10(ScanAll(names).width)
    ensures name in names && NumberPrefix(name).Some? && !ListedBelow(name, NextPad(names))
  {
    hide ScanAll, NumberPrefix, Less, Pad;
    var w, n := ScanAll(names).width, ScanAll(names).number;
    ScanIsMaximum(names);
    TenTimes(3);
    name :| name in names && NumberOf(name) == Some(n) && |NumberPrefix(name).value| == w;
    var digits, p := NumberPrefix(name).value, NextPad(names);
    NumberOfIsValue(name);
    ValueBelowPow10(digits);
    PadIsExact(w, n + 1);
    assert n + 1 == Pow10(w) && |p| > w;
    TenTimes(w);
    PadIsExact(w + 1, n + 1);
    PowerNeedsOneMore(w, p);
    assert digits[..w] == digits;
  }

  lemma {:induction false} TenTimes(w: nat)
    ensures Pow10(w + 1) == 10 * Pow10(w) && Pow10(w) >= 1
  {
    if w > 0 {
      TenTimes(w - 1);
    }
  }

  /** 10^w, printed in more than w digits at width w, starts with 10^(w-1). */
  lemma PowerNeedsOneMore(w: nat, p: string)
    requires 0 < w && p == Pad(w, Pow10(w)) && |p| > w
    ensures |p| == w + 1 && Value(p[..w]) < Pow10(w) - 1
  {
    TenTimes(w);
    DigitsLength(Pow10(w), w + 1);
    ValueOfDigits(Pow10(w));
    ValueOfSnoc(p[..w], p[w]);
    assert p == p[..w] + [p[w]];
  }

  /**
   With all numbers at one width, the promise holds if and only if the next number
   still fits that width and each unnumbered file sorts below it.
   */
  lemma OneWidthKeepsOrderIff(names: seq<string>, slug: string)
    requires OneWidth(names) && ScanAll(names).number < MAX_INT
    ensures (forall name :: name in names ==> Less(name, NextFile(names, slug))) <==>
            ScanAll(names).number + 1 < Pow10(ScanAll(names).width) && UnnumberedBelow(names)
  {
    ScaffoldedFileIsLastIff(names, slug);
    hide Less, NextFile, NextPad, OneWidth, ScanAll, NumberPrefix, NumberedBefore;
    if ScanAll(names).number + 1 < Pow10(ScanAll(names).width) {
      forall name | name in names && NumberPrefix(name).Some?
        ensures ListedBelow(name, NextPad(names))
      {
        FittingNumberIsBelow(names, name);
      }
    } else {
      var name := OutgrownNumberIsNot(names);
    }
  }

  // ----- Finding it again --------------------------------------------------------

  /** What strconv.Atoi makes of digits, bare or signed: their value, if it fits in 64 bits. */
  lemma AtoiReads(digits: string)
    requires AllDigits(digits) && digits != ""
    ensures Atoi(digits) == if Value(digits) < 0x8000_0000_0000_0000 then Some(Value(digits)) else None
    ensures Atoi("+" + digits) == Atoi(digits)
    ensures Atoi("-" + digits) == if Value(digits) <= 0x8000_0000_0000_0000 then Some(0 - Value(digits)) else None
    ensures Atoi("") == None
  {
    assert IsDigit(digits[0]);
    assert ("+" + digits)[1..] == digits && ("-" + digits)[1..] == digits;
    hide Value;
  }

  /** The i-th name, and it alone, carries the number n. */
  predicate OnlyCarrier(names: seq<string>, n: int, i: nat) {
    && i < |names| && NumberOf(names[i]) == Some(n)
    && forall j :: 0 <= j < |names| && NumberOf(names[j]) == Some(n) ==> j == i
  }

  lemma {:induction false} NoCarrier(names: seq<string>, n: int)
    requires Matching(names, n) == []
    ensures forall i :: 0 <= i < |names| ==> NumberOf(names[i]) != Some(n)
  {
    hide NumberOf;
    if names != [] {
      NoCarrier(names[..|names| - 1], n);
    }
  }

  lemma {:induction false} CarrierMatches(names: seq<string>, n: int, i: nat)
    requires OnlyCarrier(names, n, i)
    ensures Matching(names, n) == [names[i]]
  {
    hide NumberOf;
    var last := |names| - 1;
    if i == last {
      forall name | name in names[..last]
        ensures NumberOf(name) != Some(n)
      {
        var j :| 0 <= j < last && names[j] == name;
      }
      NoMatch(names[..last], n);
    } else {
      CarrierMatches(names[..last], n, i);
    }
  }

  lemma {:induction false} MatchingCarries(names: seq<string>, n: int) returns (i: nat)
    requires |Matching(names, n)| == 1
    ensures OnlyCarrier(names, n, i)
  {
    hide NumberOf;
    var last := |names| - 1;
    if NumberOf(names[last]) == Some(n) {
      NoCarrier(names[..last], n);
      i := last;
    } else {
      i := MatchingCarries(names[..last], n);
    }
  }

  /**
   A target that is the name of a file is that file; any other target is a number, and
   resolves to a file exactly if that file, and no other, carries it.
   */
  lemma ResolveIff(names: seq<string>, target: string, file: string)
    ensures target in names ==> Resolve(names, target) == Some(target)
    ensures target !in names ==>
      (Resolve(names, target) == Some(file) <==>
        Atoi(target).Some? && exists i: nat :: OnlyCarrier(names, Atoi(target).value, i) && names[i] == file)
  {
    hide Atoi, Matching, NumberOf, OnlyCarrier;
    if target !in names && Atoi(target).Some? {
      var n := Atoi(target).value;
      if |Matching(names, n)| == 1 {
        var i := MatchingCarries(names, n);
        CarrierMatches(names, n, i);
      }
      forall i: nat | OnlyCarrier(names, n, i)
        ensures i < |names| && Matching(names, n) == [names[i]]
      {
        CarrierMatches(names, n, i);
        CarrierIsName(names, n, i);
      }
    }
  }

  lemma CarrierIsName(names: seq<string>, n: int, i: nat)
    requires OnlyCarrier(names, n, i)
    ensures i < |names|
  {
  }

  /** So a number that two files carry resolves to nothing. */
  lemma AmbiguousNumber(names: seq<string>, target: string, i: nat, j: nat)
    requires i < j < |names| && target !in names
    requires NumberOf(names[i]).Some? && Atoi(target) == NumberOf(names[i]) == NumberOf(names[j])
    ensures Resolve(names, target) == None
  {
    hide Atoi, NumberOf;
    if Resolve(names, target).Some? {
      ResolveIff(names, target, Resolve(names, target).value);
    }
  }

  lemma PaddedTargetParses(zeros: nat, n: nat)
    requires n <= MAX_INT
    ensures Atoi(Zeros(zeros) + Digits(n)) == Some(n)
  {
    var target := Zeros(zeros) + Digits(n);
    ValueOfDigits(n);
    LeadingZeros(zeros, Digits(n));
    assert IsDigit(target[0]);
  }

  lemma NumberedNameIsNoNumber(name: string, target: string)
    requires NumberPrefix(name).Some? && AllDigits(target)
    ensures name != target
  {
    SplitAtNumber(name, NumberPrefix(name).value);
  }

  lemma ResolvesToLast(names: seq<string>, file: string, n: int, target: string)
    requires Atoi(target) == Some(n) && NumberOf(file) == Some(n)
    requires target !in names && target != file
    requires forall name :: name in names ==> NumberOf(name) != Some(n)
    ensures Resolve(names + [file], target) == Some(file)
  {
    NoMatch(names, n);
    assert (names + [file])[..|names|] == names;
  }

  /**
   Any zero padding of its number resolves to exactly the scaffolded file, in any
   directory, if and only if no other file is called just that.
   */
  lemma ScaffoldedFileResolvesIff(names: seq<string>, slug: string, zeros: nat)
    requires ScanAll(names).number < MAX_INT
    ensures var target := Zeros(zeros) + Digits(ScanAll(names).number + 1);
      Resolve(names + [NextFile(names, slug)], target) == Some(NextFile(names, slug)) <==> target !in names
  {
    hide ScanAll, NumberOf, NumberPrefix, NextFile, Matching, Atoi, Digits, Zeros, Pad, Less;
    var n, file := ScanAll(names).number + 1, NextFile(names, slug);
    var target := Zeros(zeros) + Digits(n);
    ScaffoldedFileIs(names, slug);
    NumberedNameIsNoNumber(file, target);
    PaddedTargetParses(zeros, n);
    forall name | name in names
      ensures NumberOf(name) != Some(n)
    {
      NextNumberIsNew(names, name);
    }
    hide Resolve;
    if target !in names {
      ResolvesToLast(names, file, n, target);
    } else {
      ResolveIff(names + [file], target, file);
    }
  }

  lemma ScaffoldedFileIs(names: seq<string>, slug: string)
    requires ScanAll(names).number < MAX_INT
    ensures NumberOf(NextFile(names, slug)) == Some(ScanAll(names).number + 1)
    ensures NumberPrefix(NextFile(names, slug)).Some?
  {
    hide ScanAll, NumberOf, NumberPrefix, Filename;
    ScanIsMaximum(names);
    NumberOfPadded(ScanAll(names).width, ScanAll(names).number + 1, slug);
  }

  // ----- Where the order breaks ----------------------------------------------------

  lemma PaddedSortsFirst()
    ensures Less(Filename(2, 3, "c"), "1_a")
  {
    assert Filename(2, 3, "c")[0] == '0';
  }

  /**
   Mixed widths can break the order: after 1_a and 02_b, whose highest number is
   printed at width 2, the next file 03_c is listed before 1_a.
   */
  lemma MixedWidthsBreakOrder()
    ensures ScanAll(["02_b", "1_a"]) == Scan(2, 2)
    ensures Less(Filename(2, 3, "c"), "1_a")
  {
    hide NumberPrefix, Filename, Digits, Less;
    PaddedSortsFirst();
    var names := ["02_b", "1_a"];
    assert names[..1] == ["02_b"] && ["02_b"][..0] == [];
    PrefixOfNumbered("02", "b");
    PrefixOfNumbered("1", "a");
    assert "02" + ("_" + "b") == "02_b" && "1" + ("_" + "a") == "1_a";
    assert "02"[1..] == "2" && "2"[1..] == "" && "1"[1..] == "";
    assert Pow10(1) == 10 * Pow10(0);
    assert Value("2") == DigitOf('2') * Pow10(0) + Value("");
    assert Value("02") == DigitOf('0') * Pow10(1) + Value("2");
    assert Value("1") == DigitOf('1') * Pow10(0) + Value("");
    assert ScanAll([]) == Scan(0, 4);
    assert ScanAll(["02_b"]) == Scan(2, 2);
  }

  /** So can a width that is outgrown, with every file at it: after 9_a the next file, 10_b, is listed first. */
  lemma OutgrownWidthBreaksOrder()
    ensures OneWidth(["9_a"]) && NextPad(["9_a"]) == "10"
    ensures !Less("9_a", NextFile(["9_a"], "b"))
  {
    var names := ["9_a"];
    assert names[..0] == [] && ScanAll([]) == Scan(0, 4);
    PrefixOfNumbered("9", "a");
    assert "9" + ("_" + "a") == "9_a" && "9"[1..] == "";
    assert Value("9") == DigitOf('9') * Pow10(0) + Value("");
    assert ScanAll(names) == Scan(9, 1);
    assert Digits(10) == Digits(1) + [CharOf(0)] && Digits(1) == "1";
    assert NextFile(names, "b")[0] == '1';
  }
}
