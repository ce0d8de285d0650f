/**
 * `compute_queue_number_from_bin_id`: pins every bin to one of a fixed
 * number of task queues by the sum of the character codes of its id.
 */
module Sharding {
  import opened Wrappers
  import opened PyValues

  /** The number of queues the data handler shards appends over. */
  const NumQueues: int := 10

  /** The sum of `ord(ch)` over the characters of `s`. */
  function CharSum(s: string): nat
  {
    if s == [] then 0 else CharSum(s[..|s| - 1]) + s[|s| - 1] as int
  }

  /** Python's `a % n`: the remainder takes the sign of the divisor. */
  function PyMod(a: int, n: int): (r: int)
    requires n != 0
    ensures n > 0 ==> 0 <= r < n
    ensures n < 0 ==> n < r <= 0
    ensures exists q :: a == n * q + r
  {
    if n > 0 then
      assert a == n * (a / n) + a % n;
      a % n
    else
      var q := (-a) / (-n);
      assert -a == (-n) * q + (-a) % (-n);
      assert a == n * q + -((-a) % (-n));
      -((-a) % (-n))
  }

  /** Euclidean remainders are determined by any quotient-remainder split. */
  lemma ModUnique(x: int, m: int, q: int, r: int)
    requires m > 0 && 0 <= r < m && x == m * q + r
    ensures x % m == r
  {
    var q' := x / m;
    assert x == m * q' + x % m;
    if q > q' {
      assert m * q - m * q' == m * (q - q');
      MulAtLeast(m, q - q');
    } else if q < q' {
      assert m * q' - m * q == m * (q' - q);
      MulAtLeast(m, q' - q);
    }
  }

  lemma {:induction false} MulAtLeast(m: int, d: int)
    requires m > 0 && d >= 1
    ensures m * d >= m
    decreases d
  {
    if d > 1 {
      MulAtLeast(m, d - 1);
      assert m * d == m * (d - 1) + m;
    }
  }

  /** Reducing a partial sum first does not change the final remainder. */
  lemma PyModAdd(a: int, c: int, n: int)
    requires n != 0
    ensures PyMod(PyMod(a, n) + c, n) == PyMod(a + c, n)
  {
    if n > 0 {
      ModUnique(a + c, n, a / n + (a % n + c) / n, (a % n + c) % n);
    } else {
      var m := -n;
      var x := -a;
      ModUnique(x - c, m, x / m + (x % m - c) / m, (x % m - c) % m);
      assert -(PyMod(a, n) + c) == x % m - c;
    }
  }

  /** The queue index of a bin id, for a non-zero number of queues. */
  function QueueIndex(binId: string, numQueues: int): int
    requires numQueues != 0
  {
    PyMod(CharSum(binId), numQueues)
  }

  /** One more character moves the index by its code, modulo the queue count:
    * the step of the loop in `compute_queue_number_from_bin_id`. */
  lemma QueueIndexStep(s: string, c: char, numQueues: int)
    requires numQueues != 0
    ensures QueueIndex(s + [c], numQueues) == PyMod(QueueIndex(s, numQueues) + c as int, numQueues)
  {
    assert (s + [c])[..|s|] == s;
    PyModAdd(CharSum(s), c as int, numQueues);
  }

  function DigitChar(d: nat): char
    requires d < 10
  {
    "0123456789"[d]
  }

  /** `str(n)` for a natural number: its decimal digits. */
  function Digits(n: nat): (r: string)
    ensures |r| > 0
    decreases n
  {
    if n < 10 then [DigitChar(n)] else Digits(n / 10) + [DigitChar(n % 10)]
  }

  /** `str(k)` for any integer. */
  function IntToString(k: int): string
  {
    if k < 0 then "-" + Digits(-k) else Digits(k)
  }

  /** The name of the queue with the given index. */
  function QueueName(k: int): string
  {
    "queue" + IntToString(k)
  }

  /** What `compute_queue_number_from_bin_id(bin_id, num_queues)` returns or
    * raises: with no queues the first `% 0` raises, so only an empty id escapes. */
  function QueueNameFor(binId: string, numQueues: int): Result<string, Error>
  {
    if numQueues == 0 then (if binId == [] then Success(QueueName(0)) else Failure(ZeroDivision))
    else Success(QueueName(QueueIndex(binId, numQueues)))
  }

  /** `compute_queue_number_from_bin_id`: a running `(acc + ord(ch)) % n`
    * over the id, then the queue's name. */
  method ComputeQueueName(binId: string, numQueues: int) returns (r: Result<string, Error>)
    ensures r == QueueNameFor(binId, numQueues)
    ensures r.Failure? <==> numQueues == 0 && binId != []
    ensures numQueues > 0 ==> exists k :: 0 <= k < numQueues && k == CharSum(binId) % numQueues && r == Success(QueueName(k))
  {
    var queueNum := 0;
    for i := 0 to |binId|
      invariant numQueues == 0 ==> i == 0 && queueNum == 0
      invariant numQueues != 0 ==> queueNum == QueueIndex(binId[..i], numQueues)
    {
      if numQueues == 0 {
        return Failure(ZeroDivision);
      }
      QueueIndexStep(binId[..i], binId[i], numQueues);
      assert binId[..i + 1] == binId[..i] + [binId[i]];
      queueNum := PyMod(queueNum + binId[i] as int, numQueues);
    }
    assert binId[..|binId|] == binId;
    r := Success(QueueName(queueNum));
  }

  /** Reads back the digits `Digits` writes. */
  function ParseDigits(s: string): int
  {
    if s == [] then 0 else ParseDigits(s[..|s| - 1]) * 10 + DigitValue(s[|s| - 1])
  }

  function DigitValue(c: char): int
  {
    if '0' <= c <= '9' then c as int - '0' as int else 0
  }

  lemma {:induction false} DigitsRoundTrip(n: nat)
    ensures ParseDigits(Digits(n)) == n
    decreases n
  {
    if n >= 10 {
      DigitsRoundTrip(n / 10);
      var s := Digits(n / 10) + [DigitChar(n % 10)];
      assert s[..|s| - 1] == Digits(n / 10);
    }
  }

  /** Distinct queue indexes name distinct queues. */
  lemma QueueNamesDistinct(j: nat, k: nat)
    requires j != k
    ensures QueueName(j) != QueueName(k)
  {
    if QueueName(j) == QueueName(k) {
      assert Digits(j) == QueueName(j)[5..];
      assert Digits(k) == QueueName(k)[5..];
      DigitsRoundTrip(j);
      DigitsRoundTrip(k);
    }
  }

  /** With the ten queues the data handler uses, every bin id, the empty one
    * included, lands on one of `queue0` ... `queue9`. */
  lemma TenQueues(binId: string)
    ensures QueueNameFor(binId, NumQueues).Success?
    ensures var name := QueueNameFor(binId, NumQueues).value;
      |name| == 6 && name[..5] == "queue" && '0' <= name[5] <= '9'
  {
    var k := QueueIndex(binId, NumQueues);
    assert 0 <= k < 10;
    assert QueueName(k) == "queue" + [DigitChar(k)];
  }

  /** The code sum over a concatenation is the sum of the parts. */
  lemma {:induction false} CharSumConcat(s: string, t: string)
    ensures CharSum(s + t) == CharSum(s) + CharSum(t)
    decreases |t|
  {
    if t != [] {
      var t' := t[..|t| - 1];
      assert (s + t)[..|s + t| - 1] == s + t';
      CharSumConcat(s, t');
    } else {
      assert s + t == s;
    }
  }

  /** Taking one character out of a string takes its code out of the sum. */
  lemma CharSumRemove(t: string, i: nat)
    requires i < |t|
    ensures CharSum(t) == CharSum(t[..i] + t[i + 1..]) + t[i] as int
  {
    assert t == t[..i] + ([t[i]] + t[i + 1..]);
    CharSumConcat(t[..i], [t[i]] + t[i + 1..]);
    CharSumConcat([t[i]], t[i + 1..]);
    CharSumConcat(t[..i], t[i + 1..]);
    assert [t[i]][..0] == [];
  }

  lemma MultisetRemove(t: string, i: nat)
    requires i < |t|
    ensures multiset(t[..i] + t[i + 1..]) == multiset(t) - multiset{t[i]}
  {
    assert t == t[..i] + [t[i]] + t[i + 1..];
  }

  /** The code sum depends only on which characters occur how often. */
  lemma {:induction false} CharSumPermutation(s: string, t: string)
    requires multiset(s) == multiset(t)
    ensures CharSum(s) == CharSum(t)
    decreases |s|
  {
    if s != [] {
      var c := s[|s| - 1];
      var s' := s[..|s| - 1];
      assert multiset(s') == multiset(s) - multiset{c} by {
        assert s == s' + [c];
      }
      assert c in multiset(t);
      var i :| 0 <= i < |t| && t[i] == c;
      MultisetRemove(t, i);
      CharSumPermutation(s', t[..i] + t[i + 1..]);
      CharSumRemove(t, i);
    } else {
      assert |t| == |multiset(t)| == 0;
    }
  }

  /** Ids made of the same characters share a queue: only the characters,
    * not their order, decide the shard. */
  lemma SameCharactersSameQueue(s: string, t: string, numQueues: int)
    requires multiset(s) == multiset(t)
    ensures QueueNameFor(s, numQueues) == QueueNameFor(t, numQueues)
  {
    CharSumPermutation(s, t);
    assert |s| == |multiset(s)| == |t|;
  }
}
