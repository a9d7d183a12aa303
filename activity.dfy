/**
  The three activity views: per-bucket sums of message lengths, where the
  bucket of a message is its local date, its hour of day, or its month key.
*/
module Activity {
  import opened Messages

  /** `msg.timestamp.date()` */
  function DateKey(m: Message): Date {
    Date(m.timestamp.year, m.timestamp.month, m.timestamp.day)
  }

  /** Two messages share a daily bucket exactly when they were sent on the same calendar day, at whatever time. */
  lemma DateKeyShared(m1: Message, m2: Message)
    ensures DateKey(m1) == DateKey(m2)
        <==> m1.timestamp.year == m2.timestamp.year && m1.timestamp.month == m2.timestamp.month
             && m1.timestamp.day == m2.timestamp.day
  {
  }

  /** `msg.timestamp.hour`: one of the 24 hourly buckets. */
  function HourKey(m: Message): (h: int)
    ensures 0 <= h <= 23
  {
    m.timestamp.hour
  }

  function DigitChar(d: nat): (c: char)
    requires d < 10
    ensures '0' <= c <= '9'
  {
    ('0' as int + d) as char
  }

  /** `str(n)` for a natural number: its decimal digits, without leading zeros. */
  function Decimal(n: nat): (s: string)
    ensures 1 <= |s| && forall i :: 0 <= i < |s| ==> '0' <= s[i] <= '9'
  {
    if n < 10 then [DigitChar(n)] else Decimal(n / 10) + [DigitChar(n % 10)]
  }

  /** `str(n)` has no leading zero: one digit exactly below 10, and a first digit other than `0` for a positive number. */
  lemma {:induction false} DecimalNoLeadingZero(n: nat)
    ensures |Decimal(n)| == 1 <==> n < 10
    ensures n > 0 ==> Decimal(n)[0] != '0'
  {
    if n >= 10 {
      DecimalNoLeadingZero(n / 10);
      assert Decimal(n)[0] == Decimal(n / 10)[0];
    }
  }

  /** The number a string of decimal digits denotes. */
  function DecimalValue(s: string): nat
    requires forall i :: 0 <= i < |s| ==> '0' <= s[i] <= '9'
  {
    if s == [] then 0
    else 10 * DecimalValue(s[..|s| - 1]) + (s[|s| - 1] as int - '0' as int)
  }

  /** Reading the digits back gives the number: `Decimal` is injective. */
  lemma {:induction false} DecimalRoundTrip(n: nat)
    ensures DecimalValue(Decimal(n)) == n
  {
    if n >= 10 {
      var s := Decimal(n);
      assert s[..|s| - 1] == Decimal(n / 10);
      DecimalRoundTrip(n / 10);
    }
  }

  /** `s[-2:]`: the last two characters, or all of a shorter string. */
  function LastTwo(s: string): string {
    if |s| <= 2 then s else s[|s| - 2..]
  }

  /** At most two digits for a number below 100. */
  lemma DecimalShort(n: nat)
    requires n < 100
    ensures |Decimal(n)| <= 2
  {
    if n >= 10 {
      assert Decimal(n / 10) == [DigitChar(n / 10)];
    }
  }

  /** `f"{msg.timestamp.month}-{str(msg.timestamp.year)[-2:]}"` */
  function MonthKey(m: Message): string {
    Decimal(m.timestamp.month) + "-" + LastTwo(Decimal(m.timestamp.year))
  }

  /**
    A month key is the month without zero-padding (one digit exactly for
    January to September, never starting with `0`), a dash, and one or two digits.
  */
  lemma MonthKeyShape(m: Message)
    ensures var k := MonthKey(m);
            3 <= |k| <= 5 && '0' <= k[0] <= '9' && '0' <= k[|k| - 1] <= '9'
            && exists i :: 1 <= i <= 2 && k[i] == '-'
    ensures MonthKey(m)[1] == '-' <==> m.timestamp.month < 10
    ensures MonthKey(m)[0] != '0'
  {
    var month, year := Decimal(m.timestamp.month), LastTwo(Decimal(m.timestamp.year));
    DecimalShort(m.timestamp.month);
    DecimalNoLeadingZero(m.timestamp.month);
    assert MonthKey(m)[|month|] == '-';
  }

  /** Division by ten, from a decomposition of the dividend. */
  lemma DivTen(n: int, q: int, r: int)
    requires n == 10 * q + r && 0 <= r < 10
    ensures n / 10 == q && n % 10 == r
  {
  }

  /** The tens and units of a number of two or more digits. */
  lemma LastTwoDigits(y: nat)
    requires y >= 10
    ensures LastTwo(Decimal(y)) == [DigitChar(y / 10 % 10), DigitChar(y % 10)]
  {
    var a := y / 10;
    var t := Decimal(a);
    assert Decimal(y) == t + [DigitChar(y % 10)];
    if a < 10 {
      DivTen(a, 0, a);
      assert t == [DigitChar(a % 10)];
    } else {
      assert t == Decimal(a / 10) + [DigitChar(a % 10)];
      assert LastTwo(t + [DigitChar(y % 10)]) == [t[|t| - 1], DigitChar(y % 10)];
    }
  }

  lemma Mod100(y: nat)
    ensures y % 100 == 10 * (y / 10 % 10) + y % 10
  {
    var q, r := y / 100, y % 100;
    var c, d := r / 10, r % 10;
    assert r == 10 * c + d && 0 <= d < 10;
    assert 0 <= c < 10;
    DivTen(y, 10 * q + c, d);
    DivTen(10 * q + c, q, c);
  }

  /**
    Two years give the same two-character suffix exactly when they agree
    modulo 100 and are both below 10 or both at least 10 (year 5 gives "5",
    year 105 gives "05").
  */
  lemma YearSuffixCollision(y1: Year, y2: Year)
    ensures LastTwo(Decimal(y1)) == LastTwo(Decimal(y2)) <==> y1 % 100 == y2 % 100 && (y1 < 10 <==> y2 < 10)
  {
    if y1 >= 10 && y2 >= 10 {
      LongYearsSuffix(y1, y2);
    } else if y1 < 10 && y2 < 10 {
      if LastTwo(Decimal(y1)) == LastTwo(Decimal(y2)) {
        DigitInjective(y1, y2);
      }
    } else if y1 >= 10 {
      LastTwoDigits(y1);
    } else {
      LastTwoDigits(y2);
    }
  }

  lemma LongYearsSuffix(y1: nat, y2: nat)
    requires y1 >= 10 && y2 >= 10
    ensures LastTwo(Decimal(y1)) == LastTwo(Decimal(y2)) <==> y1 % 100 == y2 % 100
  {
    Mod100(y1);
    Mod100(y2);
    LastTwoDigits(y1);
    LastTwoDigits(y2);
    if LastTwo(Decimal(y1)) == LastTwo(Decimal(y2)) {
      DigitInjective(y1 / 10 % 10, y2 / 10 % 10);
      DigitInjective(y1 % 10, y2 % 10);
    }
    if y1 % 100 == y2 % 100 {
      TensUnits(y1 % 100, y1 / 10 % 10, y1 % 10, y2 / 10 % 10, y2 % 10);
    }
  }

  lemma TensUnits(v: int, a1: int, b1: int, a2: int, b2: int)
    requires 0 <= b1 < 10 && 0 <= b2 < 10 && v == 10 * a1 + b1 && v == 10 * a2 + b2
    ensures a1 == a2 && b1 == b2
  {
  }

  lemma DigitInjective(a: nat, b: nat)
    requires a < 10 && b < 10 && DigitChar(a) == DigitChar(b)
    ensures a == b
  {
  }

  /**
    Two messages share a monthly bucket exactly when they have the same month
    and their years have the same two-character suffix, so years a century
    apart share one.
  */
  lemma MonthKeyShared(m1: Message, m2: Message)
    ensures MonthKey(m1) == MonthKey(m2)
        <==> m1.timestamp.month == m2.timestamp.month
             && m1.timestamp.year % 100 == m2.timestamp.year % 100
             && (m1.timestamp.year < 10 <==> m2.timestamp.year < 10)
  {
    var a1, a2 := Decimal(m1.timestamp.month), Decimal(m2.timestamp.month);
    var b1, b2 := LastTwo(Decimal(m1.timestamp.year)), LastTwo(Decimal(m2.timestamp.year));
    YearSuffixCollision(m1.timestamp.year, m2.timestamp.year);
    if MonthKey(m1) == MonthKey(m2) {
      SplitAtDash(a1, b1, a2, b2);
      DecimalRoundTrip(m1.timestamp.month);
      DecimalRoundTrip(m2.timestamp.month);
    }
  }

  lemma DashPosition(a: string, b: string)
    ensures (a + "-" + b)[|a|] == '-'
    ensures forall i :: 0 <= i < |a| ==> (a + "-" + b)[i] == a[i]
  {
  }

  /** A string of digits, a dash and a suffix splits at the dash in one way only. */
  lemma SplitAtDash(a1: string, b1: string, a2: string, b2: string)
    requires forall i :: 0 <= i < |a1| ==> '0' <= a1[i] <= '9'
    requires forall i :: 0 <= i < |a2| ==> '0' <= a2[i] <= '9'
    requires a1 + "-" + b1 == a2 + "-" + b2
    ensures a1 == a2 && b1 == b2
  {
    var k := a1 + "-" + b1;
    DashPosition(a1, b1);
    DashPosition(a2, b2);
    if |a1| != |a2| {
      assert false;
    } else {
      assert a1 == k[..|a1|] == a2;
      assert b1 == k[|a1| + 1..] == b2;
    }
  }

  // ---------------------------------------------------------------------------
  // Accumulation per bucket

  /** `activity[k] += n` on a `defaultdict(int)`. */
  function Bump<K(==)>(activity: map<K, int>, k: K, n: int): map<K, int> {
    activity[k := (if k in activity then activity[k] else 0) + n]
  }

  /** The map an aggregation loop builds over `s` with bucket function `key`. */
  function Totals<K(==)>(s: seq<Message>, key: Message -> K): (r: map<K, int>)
  {
    if s == [] then map[]
    else Bump(Totals(s[..|s| - 1], key), key(s[|s| - 1]), s[|s| - 1].Length())
  }

  /** The messages of `s` in bucket `k`, in order. */
  function InBucket<K(==)>(s: seq<Message>, key: Message -> K, k: K): seq<Message> {
    if s == [] then []
    else InBucket(s[..|s| - 1], key, k) + (if key(s[|s| - 1]) == k then [s[|s| - 1]] else [])
  }

  /** The summed length of a sequence of messages. */
  function TotalLength(s: seq<Message>): nat {
    if s == [] then 0 else TotalLength(s[..|s| - 1]) + s[|s| - 1].Length()
  }

  /** The set of buckets the messages fall into. */
  function Buckets<K(==)>(s: seq<Message>, key: Message -> K): set<K> {
    set i | 0 <= i < |s| :: key(s[i])
  }

  /** One more message, as an aggregation loop takes it: `activity[k] += msg.length`. */
  lemma TotalsNext<K>(s: seq<Message>, key: Message -> K, i: nat, activity: map<K, int>, k: K)
    requires i < |s| && activity == Totals(s[..i], key) && k == key(s[i])
    ensures Totals(s[..i + 1], key) == activity[k := (if k in activity then activity[k] else 0) + s[i].Length()]
  {
    assert s[..i + 1][..i] == s[..i];
  }

  /** The keys are exactly the buckets of the messages, including those whose messages are all empty. */
  lemma {:induction false} TotalsKeys<K>(s: seq<Message>, key: Message -> K)
    ensures Totals(s, key).Keys == Buckets(s, key)
  {
    if s != [] {
      var init := s[..|s| - 1];
      TotalsKeys(init, key);
      assert forall i :: 0 <= i < |init| ==> init[i] == s[i];
      assert Buckets(s, key) == Buckets(init, key) + {key(s[|s| - 1])};
    }
  }

  /** Each bucket holds the summed length of exactly its messages; a bucket no message falls into would hold 0. */
  lemma {:induction false} TotalsValue<K>(s: seq<Message>, key: Message -> K, k: K)
    ensures (if k in Totals(s, key) then Totals(s, key)[k] else 0) == TotalLength(InBucket(s, key, k))
  {
    if s != [] {
      var init, last := s[..|s| - 1], s[|s| - 1];
      TotalsValue(init, key, k);
      var b := InBucket(init, key, k);
      if key(last) == k {
        assert (b + [last])[..|b|] == b;
      } else {
        assert b + [] == b;
      }
    }
  }

  /** A bucket's messages are no longer in total than all the messages. */
  lemma {:induction false} InBucketLength<K>(s: seq<Message>, key: Message -> K, k: K)
    ensures TotalLength(InBucket(s, key, k)) <= TotalLength(s)
  {
    if s != [] {
      var init, last := s[..|s| - 1], s[|s| - 1];
      InBucketLength(init, key, k);
      var b := InBucket(init, key, k);
      if key(last) == k {
        assert (b + [last])[..|b|] == b;
      } else {
        assert b + [] == b;
      }
    }
  }

  /** Every value of an aggregation lies between zero and the summed length of all the messages. */
  lemma TotalsBounded<K>(s: seq<Message>, key: Message -> K)
    ensures forall k :: k in Totals(s, key) ==> 0 <= Totals(s, key)[k] <= TotalLength(s)
  {
    forall k | k in Totals(s, key) ensures 0 <= Totals(s, key)[k] <= TotalLength(s) {
      TotalsValue(s, key, k);
      InBucketLength(s, key, k);
    }
  }

  /** The sum of the values of a finite map. */
  ghost function MapSum<K>(m: map<K, int>): int
    decreases |m|
  {
    if |m| == 0 then 0
    else
      var k :| k in m;
      m[k] + MapSum(m - {k})
  }

  /** Removing a key of the map removes exactly one entry. */
  lemma RemoveKey<K>(m: map<K, int>, k: K)
    requires k in m
    ensures (m - {k}).Keys == m.Keys - {k} && |m - {k}| == |m| - 1
  {
    assert (m - {k}).Keys == m.Keys - {k};
    assert |m.Keys - {k}| == |m.Keys| - 1;
  }

  lemma MapSumSwap<K>(m: map<K, int>, j: K, k: K)
    requires j in m && k in m && j != k
    requires MapSum(m - {j}) == m[k] + MapSum(m - {j} - {k})
    requires MapSum(m - {k}) == m[j] + MapSum(m - {k} - {j})
    ensures m[j] + MapSum(m - {j}) == m[k] + MapSum(m - {k})
  {
    assert m - {j} - {k} == m - {k} - {j};
  }

  /** The sum does not depend on which key is taken first. */
  lemma {:induction false} MapSumRemove<K>(m: map<K, int>, k: K)
    requires k in m
    ensures MapSum(m) == m[k] + MapSum(m - {k})
    decreases |m|
  {
    var j :| j in m && MapSum(m) == m[j] + MapSum(m - {j});
    if j != k {
      RemoveKey(m, j);
      RemoveKey(m, k);
      MapSumRemove(m - {j}, k);
      MapSumRemove(m - {k}, j);
      MapSumSwap(m, j, k);
    }
  }

  lemma MapSumBump<K>(m: map<K, int>, k: K, n: int)
    ensures MapSum(Bump(m, k, n)) == MapSum(m) + n
  {
    var b := Bump(m, k, n);
    MapSumRemove(b, k);
    if k in m {
      MapSumRemove(m, k);
      assert b - {k} == m - {k};
    } else {
      assert b - {k} == m;
    }
  }

  /** Conservation: the values of the map add up to the summed length of all messages. */
  lemma {:induction false} TotalsConservation<K>(s: seq<Message>, key: Message -> K)
    ensures MapSum(Totals(s, key)) == TotalLength(s)
  {
    if s != [] {
      var init, last := s[..|s| - 1], s[|s| - 1];
      TotalsConservation(init, key);
      MapSumBump(Totals(init, key), key(last), last.Length());
    }
  }

  /** Hour keys lie in 0..23. */
  lemma HourKeysInRange(s: seq<Message>)
    ensures forall h :: h in Totals(s, HourKey) ==> 0 <= h <= 23
  {
    TotalsKeys(s, HourKey);
  }
}
