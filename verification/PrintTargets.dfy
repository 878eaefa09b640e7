/** Where formatted text goes: a string with a limit, or a pool buffer that grows. */
module PrintTargets {
  import opened Characters

  const PRINT_STRING_LEN := 200

  function Truncated(s: seq<Char16>, limit: nat): (r: seq<Char16>)
    ensures |r| == Min(|s|, limit)
  {
    s[..Min(|s|, limit)]
  }

  method StrLen(b: array<Char16>, ghost text: seq<Char16>) returns (n: nat)
    requires Terminated(b[..], text)
    ensures n == |text|
  {
    n := 0;
    while b[n] != NUL
      invariant n <= |text|
      decreases |text| - n
    {
      assert b[n] == b[..][n];
      n := n + 1;
    }
    assert b[..][n] == b[n];
  }

  /** A request for a larger pool buffer, and whether the firmware granted it. */
  datatype Request = Request(slots: nat, granted: bool)

  ghost predicate AnyRefused(requests: seq<Request>, from: nat) {
    exists k :: from <= k < |requests| && !requests[k].granted
  }

  lemma RefusedMore(requests: seq<Request>, r: Request, from: nat)
    requires from <= |requests|
    ensures AnyRefused(requests + [r], from) <==> AnyRefused(requests, from) || !r.granted
  {
    var more := requests + [r];
    assert !r.granted ==> !more[|requests|].granted;
    assert forall k :: from <= k < |requests| ==> more[k] == requests[k];
  }

  class PrintTarget {
    var str: array?<Char16>
    var len: nat
    var maxlen: nat
    /** What has been asked of the pool so far. */
    ghost var requests: seq<Request>

    /** Some request from the given one on was refused. */
    ghost predicate Refused(from: nat)
      reads this
    {
      AnyRefused(requests, from)
    }

    /** The string has room for everything below the limit; the terminator may still be missing before the first write. */
    ghost predicate Valid()
      reads this
    {
      && len <= maxlen
      && (maxlen > 0 ==> str != null && len < str.Length)
    }

    /** A fixed string with room for as many of `cap` characters as the limit lets in, and a terminator. */
    ghost predicate Bounded(cap: nat)
      reads this
    {
      Valid() && (maxlen > 0 ==> Min(cap, maxlen) < str.Length)
    }

    /** A pool buffer of maxlen slots. */
    ghost predicate Pooled()
      reads this
    {
      Valid() && (maxlen > 0 ==> maxlen == str.Length)
    }

    ghost function Contents(): seq<Char16>
      requires Valid()
      reads this, str
    {
      if maxlen == 0 then [] else str[..len]
    }

    constructor (str: array?<Char16>, maxlen: nat)
      requires maxlen > 0 ==> str != null && str.Length > 0
      ensures this.str == str && this.len == 0 && this.maxlen == maxlen
      ensures Valid() && Contents() == [] && requests == []
    {
      this.str, this.len, this.maxlen, requests := str, 0, maxlen, [];
    }

    method SPrint(buffer: array<Char16>, ghost text: seq<Char16>)
      requires Valid() && Terminated(buffer[..], text) && buffer != str
      requires maxlen > 0 ==> Min(len + |text|, maxlen) < str.Length
      modifies this`len, str
      ensures Valid() && Contents() == Truncated(old(Contents()) + text, maxlen)
      ensures maxlen > 0 ==> str[len] == NUL
      ensures maxlen > 0 ==> forall j :: len < j < str.Length ==> str[j] == old(str[j])
    {
      var n := StrLen(buffer, text);
      if len + n > maxlen {
        n := maxlen - len;
      }
      if maxlen > 0 {
        ghost var was := str[..];
        for i := 0 to n
          modifies str
          invariant forall j :: 0 <= j < str.Length ==> str[j] == if len <= j < len + i then buffer[j - len] else was[j]
        {
          str[len + i] := buffer[i];
        }
        Appended(was, str[..], len, n, buffer[..], text, maxlen);
        len := len + n;
        str[len] := NUL;
      }
    }

    method PoolPrint(buffer: array<Char16>, ghost text: seq<Char16>) returns (ghost failed: bool)
      requires Pooled() && Terminated(buffer[..], text) && buffer != str
      modifies this, str
      ensures Pooled() && (str == null || str == old(str) || fresh(str))
      ensures failed ==> str == null && maxlen == 0 && Contents() == []
      ensures !failed ==> maxlen > 0 && Contents() == old(Contents()) + text && str[len] == NUL
      ensures var slots := old(len) + |text| + 1;
              requests == old(requests) + if slots > old(maxlen) then [Request(slots + 200, !failed)] else []
      ensures failed ==> old(len) + |text| + 1 > old(maxlen)
    {
      var n := StrLen(buffer, text);
      var newlen := len + n + 1;
      failed := false;
      if newlen > maxlen {
        newlen := newlen + PRINT_STRING_LEN;
        str := ReallocatePool(newlen);
        maxlen := newlen;
        if str == null {
          len := 0;
          maxlen := 0;
          failed := true;
        }
      }
      SPrint(buffer, text);
    }

    /** A new block that starts with the text so far, or null: the firmware decides. */
    method ReallocatePool(slots: nat) returns (r: array?<Char16>)
      requires Valid() && len < slots
      modifies `requests
      ensures requests == old(requests) + [Request(slots, r != null)]
      ensures r != null ==> fresh(r) && r.Length == slots && r[..len] == Contents()
    {
      var granted: bool := *;
      requests := requests + [Request(slots, granted)];
      if !granted {
        return null;
      }
      r := new Char16[slots];
      if maxlen > 0 {
        for i := 0 to len
          invariant requests == old(requests) + [Request(slots, true)]
          invariant forall j :: 0 <= j < i ==> r[j] == str[j]
        {
          r[i] := str[i];
        }
      }
    }
  }

  lemma Appended(was: seq<Char16>, now: seq<Char16>, len: nat, n: nat, buffer: seq<Char16>, text: seq<Char16>, limit: nat)
    requires Terminated(buffer, text) && len <= limit && len + n < |was| && |now| == |was|
    requires n == if len + |text| > limit then limit - len else |text|
    requires forall j :: 0 <= j < |was| ==> now[j] == if len <= j < len + n then buffer[j - len] else was[j]
    ensures now[..len + n] == Truncated(was[..len] + text, limit)
  {
    assert forall j :: 0 <= j < n ==> buffer[j] == text[j];
  }
}
