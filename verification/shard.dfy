/**
 * The shard resolver: which shard an account belongs to, and the network
 * address of a shard given the configured `name:port` service string.
 */
module Shard {
  import Crc32
  import GoStrings
  import opened Wrappers

  function Abs(x: int): nat
  {
    if x < 0 then -x else x
  }

  /** Go's `a / b` on `int`: the quotient truncated toward zero. */
  function GoQuo(a: int, b: int): int
    requires b != 0
  {
    var q := Abs(a) / Abs(b);
    if (a < 0) == (b < 0) then q else -q
  }

  /**
   * Go's `a % b` on `int`, which the language defines through its truncated
   * quotient: `a == (a / b) * b + a % b` with `|a % b| < |b|`, so the
   * remainder takes the dividend's sign.
   */
  function GoRem(a: int, b: int): (r: int)
    requires b != 0
    ensures a == GoQuo(a, b) * b + r
    ensures Abs(r) < Abs(b)
    ensures 0 <= a ==> 0 <= r
    ensures a < 0 ==> r <= 0
  {
    var m := Abs(a) % Abs(b);
    TruncatedDivision(a, b);
    if a < 0 then -m else m
  }

  /** Truncated division recomposes the dividend. */
  lemma TruncatedDivision(a: int, b: int)
    requires b != 0
    ensures a == GoQuo(a, b) * b + (if a < 0 then -(Abs(a) % Abs(b)) else Abs(a) % Abs(b))
  {
    var m := Abs(a) % Abs(b);
    var q := Abs(a) / Abs(b);
    assert Abs(a) == q * Abs(b) + m;
    if a < 0 && b < 0 {
      assert a == q * b - m;
    } else if a < 0 {
      assert a == (-q) * b - m;
    } else if b < 0 {
      assert a == (-q) * b + m;
    }
  }

  /**
   * The shard of account `accid` among `maxNodes` shards: the IEEE CRC-32 of
   * the account id's bytes, widened to a 64-bit Go `int` (so never negative),
   * Go-remainder the shard count.
   */
  function ShardIndex(accid: seq<bv8>, maxNodes: int): (no: nat)
    requires maxNodes > 0
    ensures no < maxNodes
    ensures no == Crc32.ChecksumIEEE(accid) as int % maxNodes
  {
    GoRem(Crc32.ChecksumIEEE(accid) as int, maxNodes)
  }

  /** A positive multiple of a positive number is at least that number. */
  lemma {:induction false} MulAtLeast(d: int, n: int)
    requires n > 0 && d >= 1
    ensures d * n >= n
    decreases d
  {
    if d > 1 {
      MulAtLeast(d - 1, n);
      assert d * n == (d - 1) * n + n;
    }
  }

  /** The shard index is the only shard `k` with `checksum == q * maxNodes + k` for some `q`. */
  lemma ShardIndexUnique(accid: seq<bv8>, maxNodes: int, q: int, k: int)
    requires maxNodes > 0 && 0 <= k < maxNodes
    requires Crc32.ChecksumIEEE(accid) as int == q * maxNodes + k
    ensures k == ShardIndex(accid, maxNodes)
  {
    var c := Crc32.ChecksumIEEE(accid) as int;
    var no := ShardIndex(accid, maxNodes);
    assert c == (c / maxNodes) * maxNodes + no;
    assert no - k == (q - c / maxNodes) * maxNodes;
    var d := q - c / maxNodes;
    if d >= 1 {
      MulAtLeast(d, maxNodes);
    } else if d <= -1 {
      MulAtLeast(-d, maxNodes);
    }
  }

  /**
   * The configured service string split at its first colon into service name
   * and port, the way `strings.SplitN(service, ":", 2)` followed by
   * `parts[0], parts[1]` does; `None` where `parts[1]` does not exist.
   */
  function ParseService(service: string): (r: Option<(string, string)>)
    ensures r.Some? <==> ':' in service
    ensures r.Some? ==> r.value.0 + ":" + r.value.1 == service && ':' !in r.value.0
  {
    var parts := GoStrings.SplitN2(service, ':');
    if |parts| < 2 then None else Some((parts[0], parts[1]))
  }

  /** Parsing a service string written as `name:port` recovers the name and the port. */
  lemma ParseServiceJoin(name: string, port: string)
    requires ':' !in name
    ensures ParseService(name + ":" + port) == Some((name, port))
  {
    GoStrings.SplitN2Join(name, ':', port);
  }

  /** The address of shard `no`: `<name>-<no>.<name>:<port>` (pod name, service name, port). */
  function Address(name: string, no: nat, port: string): string
  {
    name + "-" + GoStrings.Itoa(no) + "." + name + ":" + port
  }

  /** The worked example of the service-string comment. */
  lemma ServiceExample()
    ensures ParseService("realtime:48883") == Some(("realtime", "48883"))
  {
    assert "realtime:48883" == "realtime" + ":" + "48883";
    ParseServiceJoin("realtime", "48883");
  }

  /** The worked example of the service-string comment, continued to shard 3. */
  lemma AddressExample()
    ensures Address("realtime", 3, "48883") == "realtime-3.realtime:48883"
  {
  }

  /** The CRC-32 check input "123456789" (checksum 0xCBF43926) belongs to shard 2 of 4. */
  lemma CheckInputShard()
    ensures ShardIndex(Crc32.CheckInput, 4) == 2
  {
    Crc32.CheckValue();
  }

  /** Shard 2 of service `realtime:48883`, the shard of account "123456789" among 4. */
  lemma AddressExampleShard2()
    ensures Address("realtime", 2, "48883") == "realtime-2.realtime:48883"
  {
  }

  /** A shard address splits at its first colon into the host `<name>-<no>.<name>` and the port. */
  lemma AddressSplit(name: string, no: nat, port: string)
    requires ':' !in name
    ensures ParseService(Address(name, no, port)) == Some((name + "-" + GoStrings.Itoa(no) + "." + name, port))
  {
    var host := name + "-" + GoStrings.Itoa(no) + "." + name;
    assert ':' !in GoStrings.Itoa(no);
    assert ':' !in host;
    assert Address(name, no, port) == host + ":" + port;
    ParseServiceJoin(host, port);
  }

  /** Distinct shards of one service are dialled at distinct addresses. */
  lemma AddressInjective(name: string, port: string, a: nat, b: nat)
    requires Address(name, a, port) == Address(name, b, port)
    ensures a == b
  {
    var pre := name + "-";
    var rest := name + ":" + port;
    var u := GoStrings.Itoa(a);
    var v := GoStrings.Itoa(b);
    assert Address(name, a, port) == pre + (u + "." + rest);
    assert Address(name, b, port) == pre + (v + "." + rest);
    assert u + "." + rest == v + "." + rest by {
      assert (pre + (u + "." + rest))[|pre|..] == u + "." + rest;
      assert (pre + (v + "." + rest))[|pre|..] == v + "." + rest;
    }
    assert '.' !in u && '.' !in v;
    GoStrings.SeparatorPosition(u, rest, v, rest, '.');
    GoStrings.ItoaInjective(a, b);
  }
}
