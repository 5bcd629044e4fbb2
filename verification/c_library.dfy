/** The C library calls the programs read their files with. */
module CLibrary {

  /** How many characters one `fgets` takes: up to a newline, the end, or `room` characters. */
  function LineLength(s: string, room: nat): (n: nat)
    ensures n <= |s| && n <= room
    ensures s != "" && room > 0 ==> n > 0
  {
    if s == "" || room == 0 then 0
    else if s[0] == '\n' then 1
    else 1 + LineLength(s[1..], room - 1)
  }

  /** `fgets` into a buffer of `size` characters, one of which is for the terminator. */
  function Fgets(s: string, size: nat): (line: string)
    requires size > 1
    ensures line <= s && |line| < size && (s != "" ==> line != "")
  {
    s[..LineLength(s, size - 1)]
  }

  lemma {:induction false} LineLengthStops(s: string, room: nat)
    ensures var n := LineLength(s, room);
            && (n == room || n == |s| || s[n - 1] == '\n')
            && forall k :: 0 <= k < n - 1 ==> s[k] != '\n'
  {
    if s != "" && room > 0 && s[0] != '\n' {
      LineLengthStops(s[1..], room - 1);
      var n := LineLength(s, room);
      forall k | 0 <= k < n - 1
        ensures s[k] != '\n'
      {
        if k > 0 {
          assert s[k] == s[1..][k - 1];
        }
      }
    }
  }

  lemma {:induction false} LongLine(s: string, room: nat)
    requires |s| >= room && forall k :: 0 <= k < room ==> s[k] != '\n'
    ensures LineLength(s, room) == room
  {
    if room > 0 {
      LongLine(s[1..], room - 1);
    }
  }

  lemma {:induction false} LineLengthIsLine(line: string, rest: string, room: nat)
    requires '\n' !in line && |line| < room
    ensures LineLength(line + "\n" + rest, room) == |line| + 1
  {
    var s := line + "\n" + rest;
    if line != "" {
      assert s[0] == line[0] && line[0] in line;
      assert s[1..] == line[1..] + "\n" + rest;
      LineLengthIsLine(line[1..], rest, room - 1);
    }
  }

  /** A line that fits is read whole. */
  lemma FgetsReadsLine(line: string, rest: string, size: nat)
    requires '\n' !in line && |line| + 1 < size
    ensures Fgets(line + "\n" + rest, size) == line + "\n"
    ensures (line + "\n" + rest)[|line| + 1..] == rest
  {
    LineLengthIsLine(line, rest, size - 1);
  }

  /** A read that stopped at a newline or at a full buffer: what is appended later is not part of it. */
  predicate Closed(line: string, size: nat) {
    line != "" && (line[|line| - 1] == '\n' || |line| == size - 1)
  }

  /** Every read from the file is closed, so that what is appended starts a read of its own. */
  predicate Complete(s: string, size: nat)
    requires size > 1
    decreases |s|
  {
    s == "" || (Closed(Fgets(s, size), size) && Complete(s[|Fgets(s, size)|..], size))
  }

  lemma {:induction false} LineLengthAppend(s: string, t: string, room: nat)
    requires s != "" && room > 0
    requires s[LineLength(s, room) - 1] == '\n' || LineLength(s, room) == room
    ensures LineLength(s + t, room) == LineLength(s, room)
  {
    assert (s + t)[0] == s[0] && (s + t)[1..] == s[1..] + t;
    if s[0] != '\n' && room > 1 && |s| > 1 {
      assert s[1..][LineLength(s[1..], room - 1) - 1] == s[LineLength(s, room) - 1];
      LineLengthAppend(s[1..], t, room - 1);
    }
  }

  lemma FgetsAppend(s: string, t: string, size: nat)
    requires size > 1 && s != "" && Closed(Fgets(s, size), size)
    ensures Fgets(s + t, size) == Fgets(s, size)
    ensures (s + t)[|Fgets(s, size)|..] == s[|Fgets(s, size)|..] + t
  {
    LineLengthAppend(s, t, size - 1);
  }

  lemma {:induction false} NewlineEndedIsComplete(s: string, size: nat)
    requires size > 1 && (s == "" || s[|s| - 1] == '\n')
    ensures Complete(s, size)
    decreases |s|
  {
    if s != "" {
      LineLengthStops(s, size - 1);
      NewlineEndedIsComplete(s[|Fgets(s, size)|..], size);
    }
  }

  lemma {:induction false} CompleteAppend(s: string, t: string, size: nat)
    requires size > 1 && Complete(s, size) && Complete(t, size)
    ensures Complete(s + t, size)
    decreases |s|
  {
    if s == "" {
      assert s + t == t;
    } else {
      hide Fgets;
      var line := Fgets(s, size);
      FgetsAppend(s, t, size);
      CompleteAppend(s[|line|..], t, size);
    }
  }

  predicate IsDigit(c: char) {
    '0' <= c <= '9'
  }

  /** The decimal form of a number. */
  function Decimal(n: nat): (digits: string)
    ensures digits != "" && forall k :: 0 <= k < |digits| ==> IsDigit(digits[k])
  {
    if n < 10 then [('0' as int + n) as char] else Decimal(n / 10) + [('0' as int + n % 10) as char]
  }

  /** `atol` on a string that starts with its digits, `value` being what was read before. */
  function Atol(s: string, value: nat): nat {
    if s == "" || !IsDigit(s[0]) then value
    else Atol(s[1..], 10 * value + (s[0] as int - '0' as int))
  }

  /** What `value` becomes when the digits of `n` are appended to it. */
  function Shifted(value: nat, n: nat): nat {
    if n < 10 then 10 * value + n else 10 * Shifted(value, n / 10) + n % 10
  }

  lemma {:induction false} AtolOfDecimal(n: nat, rest: string, value: nat)
    ensures Atol(Decimal(n) + rest, value) == Atol(rest, Shifted(value, n))
    decreases n
  {
    var last := [('0' as int + n % 10) as char];
    assert Atol(last + rest, Shifted(value, n / 10)) == Atol(rest, 10 * Shifted(value, n / 10) + n % 10) by {
      assert (last + rest)[1..] == rest;
    }
    if n < 10 {
      assert (Decimal(n) + rest)[1..] == rest;
    } else {
      assert Decimal(n) + rest == Decimal(n / 10) + (last + rest);
      AtolOfDecimal(n / 10, last + rest, value);
    }
  }

  lemma {:induction false} ShiftedFromZero(n: nat)
    ensures Shifted(0, n) == n
    decreases n
  {
    if n >= 10 {
      ShiftedFromZero(n / 10);
    }
  }

  /** Reading a number back. */
  lemma AtolReadsDecimal(n: nat, rest: string)
    requires rest != "" && !IsDigit(rest[0])
    ensures Atol(Decimal(n) + rest, 0) == n
  {
    AtolOfDecimal(n, rest, 0);
    ShiftedFromZero(n);
  }

  /** Without leading zeros. */
  lemma {:induction false} DecimalStarts(n: nat)
    ensures Decimal(n)[0] == '0' <==> n == 0
    decreases n
  {
    if n >= 10 {
      DecimalStarts(n / 10);
    }
  }
}
