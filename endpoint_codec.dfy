/** The encoding of a vip's backend list in the `vips` column of an OVN
    Load_Balancer row: a comma-joined string of "address:port" endpoints,
    read back with Python's `str.split(',')`. */
module EndpointCodec {

  const SEPARATOR: char := ','

  predicate Unseparated(s: string) {
    SEPARATOR !in s
  }

  /** Python's `s.split(',')`: always at least one piece (`''.split(',')` is
      `['']`), and no piece holds the separator. */
  function Split(s: string): (pieces: seq<string>)
    ensures |pieces| >= 1
    ensures forall k :: 0 <= k < |pieces| ==> Unseparated(pieces[k])
    decreases |s|
  {
    if s == [] then [[]]
    else
      var rest := Split(s[1..]);
      if s[0] == SEPARATOR then [[]] + rest
      else [[s[0]] + rest[0]] + rest[1..]
  }

  /** `','.join(endpoints)`, the field value the store keeps. */
  function Join(endpoints: seq<string>): (field: string)
    ensures |endpoints| >= 1 ==> |endpoints[0]| <= |field| && field[..|endpoints[0]|] == endpoints[0]
  {
    if |endpoints| == 0 then []
    else if |endpoints| == 1 then endpoints[0]
    else endpoints[0] + [SEPARATOR] + Join(endpoints[1..])
  }

  /** The member-create decoding: an empty field is the empty list, anything
      else is split on commas. */
  function Decode(field: string): (endpoints: seq<string>)
    ensures endpoints == [] <==> field == []
    ensures forall k :: 0 <= k < |endpoints| ==> Unseparated(endpoints[k])
  {
    if field == [] then [] else Split(field)
  }

  /** Joining the pieces of a split gives back the string. */
  lemma {:induction false} JoinSplit(s: string)
    ensures Join(Split(s)) == s
    decreases |s|
  {
    if s != [] {
      var rest := Split(s[1..]);
      JoinSplit(s[1..]);
      assert s == [s[0]] + s[1..];
      if s[0] == SEPARATOR {
        assert ([[]] + rest)[1..] == rest;
      } else {
        var head := [s[0]] + rest[0];
        assert Split(s) == [head] + rest[1..];
        if |rest| >= 2 {
          assert ([head] + rest[1..])[1..] == rest[1..];
          assert Join(rest) == rest[0] + [SEPARATOR] + Join(rest[1..]);
        }
      }
    }
  }

  /** Splitting a string that starts with a separator-free prefix glues that
      prefix onto the first piece. */
  lemma {:induction false} SplitAfterUnseparated(a: string, t: string)
    requires Unseparated(a)
    ensures Split(a + t) == [a + Split(t)[0]] + Split(t)[1..]
    decreases |a|
  {
    if a == [] {
      assert a + t == t;
      assert a + Split(t)[0] == Split(t)[0];
      assert Split(t) == [Split(t)[0]] + Split(t)[1..];
    } else {
      SplitAfterUnseparated(a[1..], t);
      assert (a + t)[1..] == a[1..] + t;
      assert (a + t)[0] == a[0];
      assert [a[0]] + (a[1..] + Split(t)[0]) == a + Split(t)[0];
    }
  }

  /** Splitting a join gives back the list, for any non-empty list of
      separator-free pieces. */
  lemma {:induction false} SplitJoin(pieces: seq<string>)
    requires |pieces| >= 1
    requires forall k :: 0 <= k < |pieces| ==> Unseparated(pieces[k])
    ensures Split(Join(pieces)) == pieces
    decreases |pieces|
  {
    if |pieces| == 1 {
      SplitAfterUnseparated(pieces[0], []);
      assert pieces[0] + [] == pieces[0];
    } else {
      var tail := Join(pieces[1..]);
      SplitJoin(pieces[1..]);
      var t := [SEPARATOR] + tail;
      assert Join(pieces) == pieces[0] + t;
      assert t[1..] == tail;
      assert Split(t) == [[]] + pieces[1..];
      SplitAfterUnseparated(pieces[0], t);
      assert pieces[0] + [] == pieces[0];
      assert pieces == [pieces[0]] + pieces[1..];
    }
  }

  /** Round trip: a list of non-empty, separator-free endpoints survives
      encoding and decoding. */
  lemma DecodeJoin(endpoints: seq<string>)
    requires forall k :: 0 <= k < |endpoints| ==> endpoints[k] != [] && Unseparated(endpoints[k])
    ensures Decode(Join(endpoints)) == endpoints
  {
    if endpoints != [] {
      SplitJoin(endpoints);
    }
  }

  /** Round trip the other way: every stored field is the join of its
      decoding. */
  lemma JoinDecode(field: string)
    ensures Join(Decode(field)) == field
  {
    if field != [] {
      JoinSplit(field);
    }
  }

  function DigitChar(d: nat): (c: char)
    requires d < 10
    ensures '0' <= c <= '9'
  {
    ('0' as int + d) as char
  }

  /** Python's `str(n)` for a non-negative integer. */
  function DecimalString(n: nat): (digits: string)
    ensures |digits| >= 1
    ensures forall k :: 0 <= k < |digits| ==> '0' <= digits[k] <= '9'
  {
    if n < 10 then [DigitChar(n)] else DecimalString(n / 10) + [DigitChar(n % 10)]
  }

  /** The number a string of decimal digits denotes. */
  function DecimalValue(digits: string): nat
  {
    if digits == [] then 0
    else
      var last := digits[|digits| - 1];
      DecimalValue(digits[..|digits| - 1]) * 10 + (if '0' <= last <= '9' then last as int - '0' as int else 0)
  }

  /** `str(n)` loses nothing: its digits denote n again. */
  lemma {:induction false} DecimalRoundTrip(n: nat)
    ensures DecimalValue(DecimalString(n)) == n
  {
    if n >= 10 {
      var digits := DecimalString(n);
      DecimalRoundTrip(n / 10);
      assert digits[..|digits| - 1] == DecimalString(n / 10);
    }
  }

  /** `address + ':' + str(port)`: the vip socket or member endpoint string. */
  function Socket(address: string, port: nat): (socket: string)
    ensures Unseparated(address) ==> Unseparated(socket)
    ensures |socket| > |address| && socket[..|address|] == address && socket[|address|] == ':'
    ensures socket[|address| + 1..] == DecimalString(port)
  {
    address + [':'] + DecimalString(port)
  }

  /** Two ports on one address give two different sockets, so listeners on
      different ports of one load balancer get different vip keys. */
  lemma SocketInjective(address: string, port: nat, other: nat)
    ensures Socket(address, port) == Socket(address, other) ==> port == other
  {
    if Socket(address, port) == Socket(address, other) {
      assert DecimalString(port) == Socket(address, port)[|address| + 1..];
      DecimalRoundTrip(port);
      DecimalRoundTrip(other);
    }
  }

  /** Where `list.remove(x)` strikes: the first occurrence of x. */
  function IndexOf(xs: seq<string>, x: string): (k: nat)
    requires x in xs
    ensures k < |xs| && xs[k] == x && x !in xs[..k]
  {
    if xs[0] == x then 0
    else
      assert x in xs[1..];
      var k := IndexOf(xs[1..], x);
      assert xs[..k + 1] == [xs[0]] + xs[1..][..k];
      k + 1
  }

  /** Python's `xs.remove(x)`, which the callers only reach when `x in xs`. */
  function RemoveFirst(xs: seq<string>, x: string): (r: seq<string>)
    requires x in xs
    ensures r == xs[..IndexOf(xs, x)] + xs[IndexOf(xs, x) + 1..]
    ensures |r| == |xs| - 1
  {
    if xs[0] == x then
      assert xs == [xs[0]] + xs[1..];
      xs[1..]
    else
      assert x in xs[1..];
      var tail := xs[1..];
      var rest := RemoveFirst(tail, x);
      var k := IndexOf(tail, x);
      assert IndexOf(xs, x) == k + 1;
      assert xs[..k + 1] == [xs[0]] + tail[..k];
      assert xs[k + 2..] == tail[k + 1..];
      assert xs == [xs[0]] + tail;
      [xs[0]] + rest
  }

  /** `remove` takes out exactly one copy of the endpoint and keeps every
      other one. */
  lemma RemoveFirstCount(xs: seq<string>, x: string)
    requires x in xs
    ensures multiset(RemoveFirst(xs, x)) == multiset(xs) - multiset{x}
  {
    var k := IndexOf(xs, x);
    assert xs == xs[..k] + [x] + xs[k + 1..];
    assert multiset(xs) == multiset(xs[..k]) + multiset{x} + multiset(xs[k + 1..]);
  }

  /** Removing an endpoint that was appended to a list not holding it gives
      the list back. */
  lemma RemoveAppended(xs: seq<string>, x: string)
    requires x !in xs
    ensures x in xs + [x]
    ensures RemoveFirst(xs + [x], x) == xs
  {
    var ys := xs + [x];
    assert forall j :: 0 <= j < |xs| ==> ys[j] == xs[j] && xs[j] != x;
    assert IndexOf(ys, x) == |xs|;
    assert ys[..|xs|] == xs;
  }

  /** A member create followed by a delete of a new, comma-free endpoint
      restores the stored field: create decodes, appends and joins; delete splits the
      joined field, finds the endpoint, removes it and joins again. */
  lemma AppendThenRemove(field: string, endpoint: string)
    requires Unseparated(endpoint)
    requires endpoint !in Decode(field)
    ensures var stored := Join(Decode(field) + [endpoint]);
            endpoint in Split(stored) && Join(RemoveFirst(Split(stored), endpoint)) == field
  {
    var xs := Decode(field);
    var ys := xs + [endpoint];
    assert forall k :: 0 <= k < |ys| ==> Unseparated(ys[k]) by {
      forall k | 0 <= k < |ys| ensures Unseparated(ys[k]) {
        if k < |xs| { assert ys[k] == xs[k]; }
      }
    }
    SplitJoin(ys);
    RemoveAppended(xs, endpoint);
    JoinDecode(field);
  }
}
