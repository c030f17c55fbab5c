/**
 * The `accounts.dat` format. Each account is one record: the UTF-8 bytes of
 * its name, a single `0x00` terminator, then its date as eight little-endian
 * bytes. The file is the records of the list in order, with no header, count
 * or version. The file itself is a byte sequence here: creating, opening,
 * reading and writing it are not modelled.
 */
module Codec {
  import opened Base
  import Utf8
  import opened Accounts

  const DATE_SIZE: nat := 8

  function Pow256(n: nat): (p: nat)
    ensures p >= 1
  {
    if n == 0 then 1 else 256 * Pow256(n - 1)
  }

  /** The lowest `n` bytes of `x`, least significant first. */
  function LeBytes(x: nat, n: nat): (r: seq<byte>)
    ensures |r| == n
  {
    if n == 0 then [] else [x % 256] + LeBytes(x / 256, n - 1)
  }

  /** The number that bytes `b` spell, least significant first. */
  function LeValue(b: seq<byte>): nat
  {
    if b == [] then 0 else b[0] + 256 * LeValue(b[1..])
  }

  lemma {:induction false} LeValueBound(b: seq<byte>)
    ensures LeValue(b) < Pow256(|b|)
  {
    if b != [] {
      LeValueBound(b[1..]);
    }
  }

  /** Reading back the bytes of a number that fits in them gives the number. */
  lemma {:induction false} LeValueOfLeBytes(x: nat, n: nat)
    requires x < Pow256(n)
    ensures LeValue(LeBytes(x, n)) == x
  {
    if n > 0 {
      assert x / 256 < Pow256(n - 1);
      LeValueOfLeBytes(x / 256, n - 1);
      assert LeBytes(x, n)[1..] == LeBytes(x / 256, n - 1);
    }
  }

  /** Writing out the number a byte sequence spells gives the same bytes. */
  lemma {:induction false} LeBytesOfLeValue(b: seq<byte>)
    ensures LeBytes(LeValue(b), |b|) == b
  {
    if b != [] {
      LeBytesOfLeValue(b[1..]);
      var v := LeValue(b[1..]);
      assert (b[0] + 256 * v) % 256 == b[0];
      assert (b[0] + 256 * v) / 256 == v;
    }
  }

  lemma {:induction false} Pow256Of8()
    ensures Pow256(DATE_SIZE) == TWO_TO_THE_64
  {
  }

  /** `u64::to_le_bytes`. */
  function ToLeBytes(x: u64): (r: seq<byte>)
    ensures |r| == DATE_SIZE
  {
    LeBytes(x, DATE_SIZE)
  }

  /** `u64::from_le_bytes`. */
  function FromLeBytes(b: seq<byte>): (x: u64)
    requires |b| == DATE_SIZE
  {
    Pow256Of8();
    LeValueBound(b);
    LeValue(b)
  }

  /** `from_le_bytes` undoes `to_le_bytes`, and the other way round. */
  lemma {:induction false} LeBytesRoundTrip(x: u64, b: seq<byte>)
    requires |b| == DATE_SIZE
    ensures FromLeBytes(ToLeBytes(x)) == x
    ensures ToLeBytes(FromLeBytes(b)) == b
  {
    Pow256Of8();
    LeValueOfLeBytes(x, DATE_SIZE);
    LeBytesOfLeValue(b);
  }

  /** The bytes `Account::to_binary` produces. */
  function Record(a: Account): seq<byte>
  {
    Utf8.Encode(a.name) + [0] + ToLeBytes(a.date)
  }

  /** `Account::to_binary`: name bytes, the terminator, then the date. */
  method ToBinary(a: Account) returns (data: seq<byte>)
    ensures data == Record(a)
    ensures var name := Utf8.Encode(a.name);
      && |data| == |name| + 1 + DATE_SIZE
      && data[..|name|] == name
      && data[|name|] == 0
      && FromLeBytes(data[|name| + 1..]) == a.date
  {
    data := [];
    data := data + Utf8.Encode(a.name);
    data := data + [0];
    data := data + ToLeBytes(a.date);
    LeBytesRoundTrip(a.date, ToLeBytes(a.date));
    assert data[|Utf8.Encode(a.name)| + 1..] == ToLeBytes(a.date);
  }

  /** The file contents `save_accounts` writes: the records in list order. */
  function Encode(accounts: seq<Account>): seq<byte>
  {
    if accounts == [] then [] else Record(accounts[0]) + Encode(accounts[1..])
  }

  lemma {:induction false} EncodeAppend(accounts: seq<Account>, a: Account)
    ensures Encode(accounts + [a]) == Encode(accounts) + Record(a)
  {
    if accounts == [] {
      assert accounts + [a] == [a];
    } else {
      assert (accounts + [a])[1..] == accounts[1..] + [a];
      EncodeAppend(accounts[1..], a);
    }
  }

  /** `save_accounts`: write each account's record, one after another. */
  method SaveAccounts(accounts: seq<Account>) returns (file: seq<byte>)
    ensures file == Encode(accounts)
  {
    file := [];
    for i := 0 to |accounts|
      invariant file == Encode(accounts[..i])
    {
      var record := ToBinary(accounts[i]);
      EncodeAppend(accounts[..i], accounts[i]);
      assert accounts[..i + 1] == accounts[..i] + [accounts[i]];
      file := file + record;
    }
    assert accounts[..|accounts|] == accounts;
  }

  /** Why `load_accounts` panics. */
  datatype LoadError =
    | InvalidName    // `String::from_utf8(..).unwrap()` on a name that is not UTF-8
    | TruncatedDate  // `read_exact(..).unwrap()` with fewer than eight bytes after a terminator

  /** The index of the first zero byte of `b`, if there is one. */
  function FirstZero(b: seq<byte>): (r: Option<nat>)
    ensures r.Some? ==> r.value < |b| && b[r.value] == 0 && 0 !in b[..r.value]
    ensures r.None? ==> 0 !in b
  {
    if b == [] then None
    else if b[0] == 0 then Some(0)
    else match FirstZero(b[1..])
      case None => None
      case Some(k) =>
        assert b[..k + 1] == [b[0]] + b[1..][..k];
        Some(k + 1)
  }

  /**
   * The accounts `load_accounts` reads from file contents `b`: the bytes up
   * to the first zero are a name, the eight after it a date, and the rest is
   * read the same way; name bytes with no terminator after them are dropped.
   */
  function Decode(b: seq<byte>): Result<seq<Account>, LoadError>
    decreases |b|
  {
    match FirstZero(b)
    case None => Ok([])
    case Some(k) =>
      match Utf8.Decode(b[..k])
      case None => Err(InvalidName)
      case Some(name) =>
        if |b| < k + 1 + DATE_SIZE then Err(TruncatedDate)
        else
          match Decode(b[k + 1 + DATE_SIZE..])
          case Err(e) => Err(e)
          case Ok(rest) => Ok([Account(name, FromLeBytes(b[k + 1..k + 1 + DATE_SIZE]))] + rest)
  }

  /** `accounts` followed by whatever `r` holds; an error stays an error. */
  function Prepend(accounts: seq<Account>, r: Result<seq<Account>, LoadError>): Result<seq<Account>, LoadError>
  {
    match r
    case Err(e) => Err(e)
    case Ok(rest) => Ok(accounts + rest)
  }

  /** The first zero after a zero-free prefix is the one that follows the prefix. */
  lemma {:induction false} FirstZeroAfter(prefix: seq<byte>, b: seq<byte>)
    requires 0 !in prefix && b != [] && b[0] == 0
    ensures FirstZero(prefix + b) == Some(|prefix|)
  {
    if prefix != [] {
      assert (prefix + b)[1..] == prefix[1..] + b;
      FirstZeroAfter(prefix[1..], b);
    }
  }

  lemma {:induction false} PrependPrepend(xs: seq<Account>, ys: seq<Account>, r: Result<seq<Account>, LoadError>)
    ensures Prepend(xs, Prepend(ys, r)) == Prepend(xs + ys, r)
  {
    if r.Ok? {
      assert xs + (ys + r.value) == (xs + ys) + r.value;
    }
  }

  /** What the decoder does at a terminator that follows a zero-free name buffer. */
  lemma {:induction false} DecodeAtTerminator(buffer: seq<byte>, b: seq<byte>, i: nat)
    requires 0 !in buffer && i < |b| && b[i] == 0
    ensures Decode(buffer + b[i..]) ==
      if Utf8.Decode(buffer).None? then Err(InvalidName)
      else if |b| - (i + 1) < DATE_SIZE then Err(TruncatedDate)
      else Prepend([Account(Utf8.Decode(buffer).value, FromLeBytes(b[i + 1..i + 1 + DATE_SIZE]))],
                   Decode(b[i + 1 + DATE_SIZE..]))
  {
    var c := buffer + b[i..];
    FirstZeroAfter(buffer, b[i..]);
    assert c[..|buffer|] == buffer;
    if Utf8.Decode(buffer).Some? && |b| - (i + 1) >= DATE_SIZE {
      assert c[|buffer| + 1..|buffer| + 1 + DATE_SIZE] == b[i + 1..i + 1 + DATE_SIZE];
      assert c[|buffer| + 1 + DATE_SIZE..] == b[i + 1 + DATE_SIZE..];
    }
  }

  /** The decoder's view is unchanged when a non-zero byte moves into the name buffer. */
  lemma {:induction false} DecodeSkipNameByte(accounts: seq<Account>, buffer: seq<byte>, b: seq<byte>, i: nat)
    requires i < |b| && b[i] != 0
    ensures Prepend(accounts, Decode(buffer + b[i..])) ==
      Prepend(accounts, Decode((buffer + [b[i]]) + b[i + 1..]))
  {
    assert buffer + b[i..] == (buffer + [b[i]]) + b[i + 1..];
  }

  /** After a complete record the buffer is empty and the account joins the list. */
  lemma {:induction false} DecodeTakeRecord(accounts: seq<Account>, buffer: seq<byte>, b: seq<byte>, i: nat)
    requires 0 !in buffer && i < |b| && b[i] == 0
    requires Utf8.Decode(buffer).Some? && |b| - (i + 1) >= DATE_SIZE
    ensures Prepend(accounts, Decode(buffer + b[i..])) ==
      Prepend(accounts + [Account(Utf8.Decode(buffer).value, FromLeBytes(b[i + 1..i + 1 + DATE_SIZE]))],
              Decode([] + b[i + 1 + DATE_SIZE..]))
  {
    var a := Account(Utf8.Decode(buffer).value, FromLeBytes(b[i + 1..i + 1 + DATE_SIZE]));
    DecodeAtTerminator(buffer, b, i);
    PrependPrepend(accounts, [a], Decode(b[i + 1 + DATE_SIZE..]));
    assert [] + b[i + 1 + DATE_SIZE..] == b[i + 1 + DATE_SIZE..];
  }

  lemma {:induction false} PrependNothing(r: Result<seq<Account>, LoadError>)
    ensures Prepend([], r) == r
  {
    if r.Ok? {
      assert [] + r.value == r.value;
    }
  }

  /** The accounts `load_accounts` reads from the file, if it could be opened. */
  function LoadedFrom(file: Option<seq<byte>>): Result<seq<Account>, LoadError>
  {
    if file.None? then Ok([]) else Decode(file.value)
  }

  /**
   * `load_accounts`: read the file byte by byte, collecting non-zero bytes
   * into a name buffer; at a zero, convert the buffer to a name and read the
   * next eight bytes as the date. A file that cannot be opened is no accounts.
   */
  method LoadAccounts(file: Option<seq<byte>>) returns (r: Result<seq<Account>, LoadError>)
    ensures r == LoadedFrom(file)
  {
    var accounts: seq<Account> := [];
    if file.None? {
      return Ok(accounts);
    }
    var b := file.value;
    var buffer: seq<byte> := [];
    var i := 0;
    assert buffer + b[i..] == b;
    PrependNothing(Decode(b));
    while i < |b|
      invariant 0 <= i <= |b|
      invariant 0 !in buffer
      invariant Decode(b) == Prepend(accounts, Decode(buffer + b[i..]))
      decreases |b| - i
    {
      var byte := b[i];
      if byte == 0 {
        DecodeAtTerminator(buffer, b, i);
        var name := Utf8.Decode(buffer);
        if name.None? {
          return Err(InvalidName);
        }
        if |b| - (i + 1) < DATE_SIZE {
          return Err(TruncatedDate);
        }
        var date := FromLeBytes(b[i + 1..i + 1 + DATE_SIZE]);
        DecodeTakeRecord(accounts, buffer, b, i);
        buffer := [];
        accounts := accounts + [Account(name.value, date)];
        i := i + 1 + DATE_SIZE;
      } else {
        DecodeSkipNameByte(accounts, buffer, b, i);
        buffer := buffer + [byte];
        i := i + 1;
      }
    }
    assert accounts + [] == accounts;
    return Ok(accounts);
  }

  /** A name the format can carry: its bytes hold no terminator. */
  predicate StorableName(name: string)
  {
    '\0' !in name
  }

  /** A record of a storable name is read back as its account, followed by what the rest reads as. */
  lemma {:induction false} DecodeRecord(a: Account, rest: seq<byte>)
    requires StorableName(a.name)
    ensures Decode(Record(a) + rest) == Prepend([a], Decode(rest))
  {
    var name := Utf8.Encode(a.name);
    var date := ToLeBytes(a.date);
    var b := Record(a) + rest;
    assert b == name + ([0] + date + rest);
    Utf8.EncodeHasZero(a.name);
    FirstZeroAfter(name, [0] + date + rest);
    assert b[..|name|] == name;
    Utf8.DecodeEncode(a.name);
    assert b[|name| + 1..|name| + 1 + DATE_SIZE] == date;
    LeBytesRoundTrip(a.date, date);
    assert b[|name| + 1 + DATE_SIZE..] == rest;
  }

  /**
   * Round trip, with any unterminated tail: loading what `save_accounts`
   * wrote, followed by bytes holding no terminator, gives back the same
   * names and dates in the same order.
   */
  lemma {:induction false} DecodeEncodeWithTail(accounts: seq<Account>, tail: seq<byte>)
    requires forall i :: 0 <= i < |accounts| ==> StorableName(accounts[i].name)
    requires 0 !in tail
    ensures Decode(Encode(accounts) + tail) == Ok(accounts)
  {
    if accounts == [] {
      assert Encode(accounts) + tail == tail;
    } else {
      var a := accounts[0];
      var rest := Encode(accounts[1..]) + tail;
      assert Encode(accounts) + tail == Record(a) + rest;
      DecodeRecord(a, rest);
      DecodeEncodeWithTail(accounts[1..], tail);
      assert [a] + accounts[1..] == accounts;
    }
  }

  /** Round trip: `load_accounts` after `save_accounts` gives back the same list. */
  lemma {:induction false} DecodeEncode(accounts: seq<Account>)
    requires forall i :: 0 <= i < |accounts| ==> StorableName(accounts[i].name)
    ensures Decode(Encode(accounts)) == Ok(accounts)
  {
    DecodeEncodeWithTail(accounts, []);
    assert Encode(accounts) + [] == Encode(accounts);
  }

  /** Every record `save_accounts` writes is the name's bytes plus nine. */
  lemma {:induction false} RecordLength(a: Account)
    ensures |Record(a)| == |Utf8.Encode(a.name)| + 1 + DATE_SIZE
  {
  }

  /** An empty file, and a file that cannot be opened, hold no accounts. */
  lemma {:induction false} LoadEmpty()
    ensures LoadedFrom(Some([])) == Ok([])
    ensures LoadedFrom(None) == Ok([])
  {
  }

  /** Name bytes with no terminator after them are dropped without complaint. */
  lemma {:induction false} DecodeUnterminated(b: seq<byte>)
    requires 0 !in b
    ensures Decode(b) == Ok([])
  {
  }

  /**
   * After a terminator, fewer than eight bytes are a failure, and a name
   * that is not UTF-8 fails before the date is read.
   */
  lemma {:induction false} DecodeBadRecord(name: seq<byte>, rest: seq<byte>)
    requires 0 !in name
    requires Utf8.Decode(name).None? || |rest| < DATE_SIZE
    ensures Decode(name + [0] + rest) ==
      Err(if Utf8.Decode(name).None? then InvalidName else TruncatedDate)
  {
    var b := name + [0] + rest;
    assert b == name + ([0] + rest);
    FirstZeroAfter(name, [0] + rest);
    assert b[..|name|] == name;
  }

  /** A good record followed by a name and only five date bytes fails as a whole. */
  lemma {:induction false} DecodeGoodThenTruncated(a: Account, name: seq<byte>, five: seq<byte>)
    requires StorableName(a.name) && 0 !in name && Utf8.Decode(name).Some? && |five| == 5
    ensures Decode(Record(a) + name + [0] + five) == Err(TruncatedDate)
  {
    var tail := name + [0] + five;
    assert Record(a) + name + [0] + five == Record(a) + tail;
    DecodeRecord(a, tail);
    DecodeBadRecord(name, five);
  }
}
