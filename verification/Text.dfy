/** The parts of Go's `strings` and `strconv` packages, and of SQLite's BINARY text
    collation, that the controller relies on. */
module Text {
  import opened Wrappers

  /** BINARY collation of TEXT columns: `a` sorts no later than `b`. */
  predicate LexLe(a: string, b: string) {
    a == "" || (b != "" && (a[0] < b[0] || (a[0] == b[0] && LexLe(a[1..], b[1..]))))
  }

  lemma {:induction false} LexTotal(a: string, b: string)
    ensures LexLe(a, b) || LexLe(b, a)
  {
    if a != "" && b != "" && a[0] == b[0] {
      LexTotal(a[1..], b[1..]);
    }
  }

  lemma {:induction false} LexAntisymmetric(a: string, b: string)
    requires LexLe(a, b) && LexLe(b, a)
    ensures a == b
  {
    if a != "" && b != "" {
      LexAntisymmetric(a[1..], b[1..]);
      assert a == [a[0]] + a[1..] && b == [b[0]] + b[1..];
    }
  }

  lemma {:induction false} LexTransitive(a: string, b: string, c: string)
    requires LexLe(a, b) && LexLe(b, c)
    ensures LexLe(a, c)
  {
    if a != "" && a[0] == b[0] == c[0] {
      LexTransitive(a[1..], b[1..], c[1..]);
    }
  }

  /** The same order said in one go: a prefix sorts no later than the whole, otherwise the
      first character that differs decides. */
  predicate NoLater(a: string, b: string) {
    a <= b || exists k :: 0 <= k < |a| && k < |b| && a[..k] == b[..k] && a[k] < b[k]
  }

  lemma {:induction false} LexLeIff(a: string, b: string)
    ensures LexLe(a, b) <==> NoLater(a, b)
  {
    if a != "" && b != "" {
      if a[0] == b[0] {
        LexLeIff(a[1..], b[1..]);
        NoLaterStep(a, b);
      } else if a[0] < b[0] {
        assert a[..0] == b[..0];
      } else {
        assert forall k :: 0 < k < |a| && k < |b| ==> a[..k][0] == a[0] && b[..k][0] == b[0];
      }
    }
  }

  lemma NoLaterStep(a: string, b: string)
    requires a != "" && b != "" && a[0] == b[0]
    ensures NoLater(a, b) <==> NoLater(a[1..], b[1..])
  {
    hide NoLater;
    assert a == [a[0]] + a[1..] && b == [a[0]] + b[1..];
    if NoLater(a[1..], b[1..]) { NoLaterCons(a[0], a[1..], b[1..]); }
    if NoLater(a, b) { NoLaterTail(a[0], a[1..], b[1..]); }
  }

  lemma NoLaterCons(c: char, x: string, y: string)
    requires NoLater(x, y)
    ensures NoLater([c] + x, [c] + y)
  {
    var a, b := [c] + x, [c] + y;
    if x <= y {
      assert a == b[..|a|];
    } else {
      var k :| 0 <= k < |x| && k < |y| && x[..k] == y[..k] && x[k] < y[k];
      assert a[..k + 1] == [c] + x[..k] && b[..k + 1] == [c] + y[..k];
      assert a[k + 1] < b[k + 1];
    }
  }

  lemma NoLaterTail(c: char, x: string, y: string)
    requires NoLater([c] + x, [c] + y)
    ensures NoLater(x, y)
  {
    var a, b := [c] + x, [c] + y;
    assert a[1..] == x && b[1..] == y;
    if a <= b {
      assert x == y[..|x|];
    } else {
      var k :| 0 <= k < |a| && k < |b| && a[..k] == b[..k] && a[k] < b[k];
      assert x[..k - 1] == a[..k][1..] && y[..k - 1] == b[..k][1..];
      assert x[k - 1] < y[k - 1];
    }
  }

  /** Text order, not numeric order. */
  lemma TextOrder()
    ensures LexLe("10.0.0.1", "10.0.0.2") && !LexLe("10.0.0.2", "10.0.0.1")
    ensures LexLe("10.0.0.10", "10.0.0.9") && LexLe("10.0.0.1", "10.0.0.10")
  {
    var a, b, c := "10.0.0.1", "10.0.0.2", "10.0.0.10";
    var d := "10.0.0.9";
    LexLeIff(a, b);
    LexLeIff(c, d);
    LexLeIff(a, c);
    assert a[..7] == b[..7] && a[7] < b[7];
    assert c[..7] == d[..7] && c[7] < d[7];
    assert a == c[..8];
    if LexLe(b, a) { LexAntisymmetric(a, b); }
  }

  /** `strings.Split` with a one-character separator. */
  function Split(s: string, sep: char): (parts: seq<string>)
    ensures |parts| >= 1
  {
    if s == "" then [""]
    else
      var rest := Split(s[1..], sep);
      if s[0] == sep then [""] + rest else [[s[0]] + rest[0]] + rest[1..]
  }

  function Join(parts: seq<string>, sep: char): string
    requires |parts| >= 1
  {
    if |parts| == 1 then parts[0] else parts[0] + [sep] + Join(parts[1..], sep)
  }

  /** Splitting loses nothing, and no piece holds the separator. */
  lemma {:induction false} JoinSplit(s: string, sep: char)
    ensures Join(Split(s, sep), sep) == s
    ensures forall p :: p in Split(s, sep) ==> sep !in p
  {
    if s != "" {
      JoinSplit(s[1..], sep);
      JoinPrepend(Split(s[1..], sep), s[0], sep);
      assert s == [s[0]] + s[1..];
    }
  }

  lemma JoinPrepend(rest: seq<string>, c: char, sep: char)
    requires |rest| >= 1
    ensures Join([""] + rest, sep) == [sep] + Join(rest, sep)
    ensures Join([[c] + rest[0]] + rest[1..], sep) == [c] + Join(rest, sep)
  {
    assert ([""] + rest)[1..] == rest;
    assert ([[c] + rest[0]] + rest[1..])[1..] == rest[1..];
  }

  /** Splitting recovers exactly the pieces that were joined. */
  lemma {:induction false} SplitJoin(parts: seq<string>, sep: char)
    requires |parts| >= 1
    requires forall p :: p in parts ==> sep !in p
    ensures Split(Join(parts, sep), sep) == parts
    decreases |parts|, |parts[0]|
  {
    var s := Join(parts, sep);
    if parts[0] == "" {
      if |parts| > 1 {
        assert s[1..] == Join(parts[1..], sep);
        SplitJoin(parts[1..], sep);
      }
    } else {
      var shorter := [parts[0][1..]] + parts[1..];
      assert shorter[1..] == parts[1..];
      assert forall c :: c in shorter[0] ==> c in parts[0];
      assert s[1..] == Join(shorter, sep);
      assert s[0] == parts[0][0];
      assert s[0] in parts[0];
      SplitJoin(shorter, sep);
      assert [s[0]] + parts[0][1..] == parts[0];
    }
  }

  /** Two pieces joined by a separator neither of them holds. */
  lemma SplitTwo(a: string, b: string, sep: char)
    requires sep !in a && sep !in b
    ensures Split(a + [sep] + b, sep) == [a, b]
  {
    SplitJoin([a, b], sep);
    assert [a, b][1..] == [b];
    assert Join([a, b], sep) == a + [sep] + b;
  }

  function TrimLeft(s: string, c: char): (t: string)
    ensures t == "" || t[0] != c
    ensures s != "" && s[0] != c ==> t == s
  {
    if s != "" && s[0] == c then TrimLeft(s[1..], c) else s
  }

  function TrimRight(s: string, c: char): (t: string)
    ensures t == "" || t[|t| - 1] != c
    ensures s != "" && s[|s| - 1] != c ==> t == s
    ensures t <= s
  {
    if s != "" && s[|s| - 1] == c then TrimRight(s[..|s| - 1], c) else s
  }

  /** `strings.Trim` with a one-character cutset. */
  function Trim(s: string, c: char): (t: string)
    ensures t == "" || (t[0] != c && t[|t| - 1] != c)
    ensures s != "" && s[0] != c && s[|s| - 1] != c ==> t == s
  {
    TrimRight(TrimLeft(s, c), c)
  }

  predicate Only(s: string, c: char) { forall i :: 0 <= i < |s| ==> s[i] == c }

  predicate Bare(s: string, c: char) { s == "" || (s[0] != c && s[|s| - 1] != c) }

  lemma {:induction false} TrimLeftPadded(pre: string, s: string, c: char)
    requires Only(pre, c) && (s == "" || s[0] != c)
    ensures TrimLeft(pre + s, c) == s
  {
    if pre == "" {
      assert pre + s == s;
    } else {
      assert (pre + s)[1..] == pre[1..] + s;
      TrimLeftPadded(pre[1..], s, c);
    }
  }

  lemma {:induction false} TrimRightPadded(s: string, post: string, c: char)
    requires Only(post, c) && (s == "" || s[|s| - 1] != c)
    ensures TrimRight(s + post, c) == s
  {
    if post == "" {
      assert s + post == s;
    } else {
      assert (s + post)[..|s + post| - 1] == s + post[..|post| - 1];
      TrimRightPadded(s, post[..|post| - 1], c);
    }
  }

  /** Trimming takes away the cutset character at both ends, all of it and nothing else. */
  lemma TrimPadded(pre: string, s: string, post: string, c: char)
    requires Only(pre, c) && Only(post, c) && Bare(s, c)
    ensures Trim(pre + s + post, c) == s
  {
    if s == "" {
      assert pre + s + post == pre + post + "";
      TrimLeftPadded(pre + post, "", c);
    } else {
      assert pre + s + post == pre + (s + post);
      TrimLeftPadded(pre, s + post, c);
      TrimRightPadded(s, post, c);
    }
  }

  lemma {:induction false} TrimLeftTakes(s: string, c: char) returns (pre: string)
    ensures s == pre + TrimLeft(s, c) && Only(pre, c)
  {
    if s != "" && s[0] == c {
      var rest := TrimLeftTakes(s[1..], c);
      pre := [c] + rest;
      assert s == [s[0]] + s[1..];
    } else {
      pre := "";
    }
  }

  lemma {:induction false} TrimRightTakes(s: string, c: char) returns (post: string)
    ensures s == TrimRight(s, c) + post && Only(post, c)
  {
    if s != "" && s[|s| - 1] == c {
      var rest := TrimRightTakes(s[..|s| - 1], c);
      post := rest + [c];
      assert s == s[..|s| - 1] + [s[|s| - 1]];
    } else {
      post := "";
    }
  }

  /** What trimming takes away is the cutset character only. */
  lemma TrimTakes(s: string, c: char) returns (pre: string, post: string)
    ensures s == pre + Trim(s, c) + post && Only(pre, c) && Only(post, c)
    ensures Bare(Trim(s, c), c)
  {
    pre := TrimLeftTakes(s, c);
    post := TrimRightTakes(TrimLeft(s, c), c);
  }

  predicate IsDigit(c: char) { '0' <= c <= '9' }

  function Digit(d: nat): (c: char)
    requires d < 10
    ensures IsDigit(c) && DigitValue(c) == d
  {
    '0' + d as char
  }

  function DigitValue(c: char): nat
    requires IsDigit(c)
  {
    c as int - '0' as int
  }

  predicate AllDigits(s: string) { forall i :: 0 <= i < |s| ==> IsDigit(s[i]) }

  /** The digits are the ten characters of that name, in that order. */
  lemma DigitIs(d: nat)
    requires d < 10
    ensures Digit(d) == "0123456789"[d] && DigitValue("0123456789"[d]) == d
  {
  }

  lemma DigitBack(c: char)
    requires IsDigit(c)
    ensures DigitValue(c) < 10 && Digit(DigitValue(c)) == c
  {
  }

  /** Decimal rendering (`%v` of an int, and each octet of `IP.String`). */
  function Itoa(n: nat): (s: string)
    ensures s != "" && AllDigits(s)
  {
    if n < 10 then [Digit(n)] else Itoa(n / 10) + [Digit(n % 10)]
  }

  /** Length of the longest prefix of decimal digits. */
  function DigitRun(s: string): (k: nat)
    ensures k <= |s| && AllDigits(s[..k])
    ensures k < |s| ==> !IsDigit(s[k])
  {
    if s == "" || !IsDigit(s[0]) then 0 else
      assert s[..1 + DigitRun(s[1..])] == [s[0]] + s[1..][..DigitRun(s[1..])];
      1 + DigitRun(s[1..])
  }

  function Number(ds: string): nat
    requires AllDigits(ds)
  {
    if ds == "" then 0
    else Number(ds[..|ds| - 1]) * 10 + DigitValue(ds[|ds| - 1])
  }

  /** A number moved up by some decimal places. */
  function MovedUp(n: nat, places: nat): nat {
    if places == 0 then n else 10 * MovedUp(n, places - 1)
  }

  /** Digits count by their decimal place. */
  lemma {:induction false} NumberConcat(a: string, b: string)
    requires AllDigits(a) && AllDigits(b)
    ensures AllDigits(a + b) && Number(a + b) == MovedUp(Number(a), |b|) + Number(b)
    decreases |b|
  {
    if b == "" {
      assert a + b == a;
    } else {
      var n := |b| - 1;
      NumberConcat(a, b[..n]);
      assert (a + b)[..|a + b| - 1] == a + b[..n];
    }
  }

  /** Go's `net.dtoi` gives up at this value. */
  const BIG := 0xFFFFFF

  /** Go's `net.dtoi`: the leading number of `s` and how many characters it takes. */
  function Dtoi(s: string): Option<(nat, nat)> {
    var k := DigitRun(s);
    if k == 0 || Number(s[..k]) >= BIG then None else Some((Number(s[..k]), k))
  }

  lemma {:induction false} NumberItoa(n: nat)
    ensures Number(Itoa(n)) == n
  {
    if n >= 10 {
      NumberItoa(n / 10);
      assert Itoa(n)[..|Itoa(n)| - 1] == Itoa(n / 10);
    }
  }

  /** A rendered number has no leading zero. */
  lemma {:induction false} ItoaCanonical(n: nat)
    ensures |Itoa(n)| > 1 ==> Itoa(n)[0] != '0'
    ensures n > 0 ==> Itoa(n)[0] != '0'
  {
    if n < 10 {
      DigitIs(n);
    } else {
      ItoaCanonical(n / 10);
    }
  }

  lemma {:induction false} NumberPositive(ds: string)
    requires AllDigits(ds) && ds != "" && ds[0] != '0'
    ensures Number(ds) > 0
  {
    if |ds| == 1 {
      assert ds[..0] == "";
      DigitBack(ds[0]);
    } else {
      NumberPositive(ds[..|ds| - 1]);
    }
  }

  /** Rendering is decimal notation: every digit text without a leading zero is the rendering
      of the number it reads as. */
  lemma {:induction false} ItoaNumber(ds: string)
    requires AllDigits(ds) && ds != "" && (|ds| > 1 ==> ds[0] != '0')
    ensures Itoa(Number(ds)) == ds
  {
    var n := |ds| - 1;
    var front, last := ds[..n], ds[n];
    assert ds == front + [last];
    DigitBack(last);
    if n == 0 {
      assert front == "" && Number(front) == 0;
    } else {
      ItoaNumber(front);
      NumberPositive(front);
      assert Number(ds) / 10 == Number(front) && Number(ds) % 10 == DigitValue(last);
    }
  }

  /** Reading a number off the front of a text. */
  lemma DtoiText(ds: string, rest: string)
    requires AllDigits(ds) && ds != "" && Number(ds) < BIG
    requires rest == "" || !IsDigit(rest[0])
    ensures Dtoi(ds + rest) == Some((Number(ds), |ds|))
  {
    var s := ds + rest;
    RunText(ds, rest);
    assert s[..|ds|] == ds;
  }

  lemma RunText(ds: string, rest: string)
    requires AllDigits(ds) && (rest == "" || !IsDigit(rest[0]))
    ensures DigitRun(ds + rest) == |ds|
  {
    var s := ds + rest;
    var k := DigitRun(s);
    assert forall i :: 0 <= i < |ds| ==> s[i] == ds[i];
    assert forall i :: 0 <= i < k ==> s[i] == s[..k][i] && IsDigit(s[i]);
    assert rest != "" ==> s[|ds|] == rest[0];
  }

  /** Reading back a rendered number, whatever follows it. */
  lemma DtoiItoa(n: nat, rest: string)
    requires n < BIG
    requires rest == "" || !IsDigit(rest[0])
    ensures Dtoi(Itoa(n) + rest) == Some((n, |Itoa(n)|))
  {
    NumberItoa(n);
    DtoiText(Itoa(n), rest);
  }

  /** Position of the first `c`, as `IndexByte`. */
  function IndexOf(s: string, c: char): (r: Option<nat>)
    ensures r.None? <==> c !in s
    ensures r.Some? ==> r.value < |s| && s[r.value] == c && c !in s[..r.value]
  {
    if s == "" then None
    else if s[0] == c then Some(0)
    else match IndexOf(s[1..], c)
      case None => None
      case Some(i) =>
        assert s[..i + 1] == [s[0]] + s[1..][..i];
        Some(i + 1)
  }
}
