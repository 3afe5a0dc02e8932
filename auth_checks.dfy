/**
 * The request checks of the authentication handler: where the client address
 * comes from (`get_client_ip`), the phone format (`validate_phone`) and the
 * hourly attempt limit (`check_rate_limit`). `$_SERVER` is a map from
 * variable names to values; PHP's `filter_var` test for a public address is a
 * parameter.
 */
module AuthChecks {
  import opened Wrappers
  import opened Text
  import opened Schema

  // ---------------------------------------------------------------------------
  // Client address (`get_client_ip`)
  // ---------------------------------------------------------------------------

  /** The server variables consulted, in order. */
  const IpKeys: seq<string> := ["HTTP_CLIENT_IP", "HTTP_X_FORWARDED_FOR", "REMOTE_ADDR"]

  /** The trimmed comma-separated entries of one server variable, or none when it is unset. */
  function Entries(server: map<string, string>, key: string): (r: seq<string>)
    ensures key in server ==> |r| == |Split(server[key], ',')|
    ensures key in server ==> forall k :: 0 <= k < |r| ==> r[k] == Trim(Split(server[key], ',')[k])
    ensures key !in server ==> r == []
  {
    if key in server then
      var parts := Split(server[key], ',');
      seq(|parts|, k requires 0 <= k < |parts| => Trim(parts[k]))
    else []
  }

  /** Every address the loops look at, in the order they look at them. */
  function Candidates(server: map<string, string>, keys: seq<string>): seq<string> {
    if keys == [] then [] else Entries(server, keys[0]) + Candidates(server, keys[1..])
  }

  /** The position of the first element satisfying `ok`, or `|s|` when there is none. */
  function FirstIndex(s: seq<string>, ok: string -> bool): (i: nat)
    ensures i <= |s|
    ensures i < |s| ==> ok(s[i])
    ensures forall k :: 0 <= k < i ==> !ok(s[k])
  {
    if s == [] then 0
    else if ok(s[0]) then 0
    else 1 + FirstIndex(s[1..], ok)
  }

  /** What the function falls back to: `REMOTE_ADDR` as it is, or "0.0.0.0". */
  function FallbackIp(server: map<string, string>): string {
    if "REMOTE_ADDR" in server then server["REMOTE_ADDR"] else "0.0.0.0"
  }

  /** The address found by scanning the variables `keys`: the first candidate
      that passes the public-address test, otherwise the fallback. */
  function ClientIpAmong(server: map<string, string>, keys: seq<string>, isPublicIp: string -> bool): string {
    var c := Candidates(server, keys);
    var i := FirstIndex(c, isPublicIp);
    if i < |c| then c[i] else FallbackIp(server)
  }

  /** The address `get_client_ip` returns. */
  function ClientIp(server: map<string, string>, isPublicIp: string -> bool): string {
    ClientIpAmong(server, IpKeys, isPublicIp)
  }

  /** The address returned is the earliest public candidate, and the fallback
      only when no candidate is public. */
  lemma ClientIpChoice(server: map<string, string>, keys: seq<string>, isPublicIp: string -> bool)
    ensures var c := Candidates(server, keys);
            var ip := ClientIpAmong(server, keys, isPublicIp);
            (exists k :: 0 <= k < |c| && isPublicIp(c[k])) ==>
              exists k :: 0 <= k < |c| && c[k] == ip && isPublicIp(ip) && forall m :: 0 <= m < k ==> !isPublicIp(c[m])
    ensures var c := Candidates(server, keys);
            (forall k :: 0 <= k < |c| ==> !isPublicIp(c[k])) ==> ClientIpAmong(server, keys, isPublicIp) == FallbackIp(server)
  {
    var c := Candidates(server, keys);
    var i := FirstIndex(c, isPublicIp);
    if forall k :: 0 <= k < |c| ==> !isPublicIp(c[k]) {
      FirstIndexNone(c, isPublicIp);
      assert ClientIpAmong(server, keys, isPublicIp) == FallbackIp(server);
    }
    if i < |c| {
      assert isPublicIp(c[i]) && forall m :: 0 <= m < i ==> !isPublicIp(c[m]);
    }
  }

  lemma FirstIndexAfter(a: seq<string>, y: string, b: seq<string>, ok: string -> bool)
    requires forall k :: 0 <= k < |a| ==> !ok(a[k])
    requires ok(y)
    ensures FirstIndex(a + [y] + b, ok) == |a|
  {
    var s := a + [y] + b;
    assert s[|a|] == y;
    assert forall k :: 0 <= k < |a| ==> s[k] == a[k];
  }

  lemma {:induction false} FirstIndexNone(s: seq<string>, ok: string -> bool)
    requires forall k :: 0 <= k < |s| ==> !ok(s[k])
    ensures FirstIndex(s, ok) == |s|
  {
    if s != [] {
      FirstIndexNone(s[1..], ok);
    }
  }

  /** The first public entry of one variable, after none among the earlier ones. */
  lemma FoundAt(all: seq<string>, seen: seq<string>, entries: seq<string>, rest: seq<string>, j: nat, ok: string -> bool)
    requires all == seen + entries + rest
    requires j < |entries| && ok(entries[j])
    requires forall k :: 0 <= k < |seen| ==> !ok(seen[k])
    requires forall k :: 0 <= k < j ==> !ok(entries[k])
    ensures FirstIndex(all, ok) == |seen| + j && all[|seen| + j] == entries[j]
  {
    assert entries == entries[..j] + [entries[j]] + entries[j + 1..];
    assert all == (seen + entries[..j]) + [entries[j]] + (entries[j + 1..] + rest);
    assert forall k :: 0 <= k < |seen| + j ==> !ok((seen + entries[..j])[k]);
    FirstIndexAfter(seen + entries[..j], entries[j], entries[j + 1..] + rest, ok);
  }

  /** `get_client_ip`. */
  method GetClientIp(server: map<string, string>, isPublicIp: string -> bool) returns (ip: string)
    ensures ip == ClientIp(server, isPublicIp)
  {
    ip := ScanIpKeys(server, IpKeys, isPublicIp);
  }

  lemma CandidatesFrom(server: map<string, string>, keys: seq<string>, i: nat)
    requires i < |keys|
    ensures Candidates(server, keys[i..]) == Entries(server, keys[i]) + Candidates(server, keys[i + 1..])
  {
    assert keys[i..][1..] == keys[i + 1..];
  }

  /** The outer loop of `get_client_ip` stops at variable `keys[i]`: with no
      public address among those `seen` before it, its first public entry is
      the address the function returns. */
  lemma ScanFound(server: map<string, string>, keys: seq<string>, i: nat, seen: seq<string>, j: nat, ok: string -> bool)
    requires i < |keys| && Candidates(server, keys) == seen + Candidates(server, keys[i..])
    requires forall k :: 0 <= k < |seen| ==> !ok(seen[k])
    requires keys[i] in server
    requires j < |Split(server[keys[i]], ',')| && ok(Trim(Split(server[keys[i]], ',')[j]))
    requires forall k :: 0 <= k < j ==> !ok(Trim(Split(server[keys[i]], ',')[k]))
    ensures ClientIpAmong(server, keys, ok) == Trim(Split(server[keys[i]], ',')[j])
  {
    var all := Candidates(server, keys);
    var entries := Entries(server, keys[i]);
    var rest := Candidates(server, keys[i + 1..]);
    EntriesFound(server, keys[i], j, ok);
    CandidatesFrom(server, keys, i);
    AppendAssoc(seen, entries, rest);
    FoundAt(all, seen, entries, rest, j, ok);
    assert |all| == |seen| + |entries| + |rest|;
  }

  /** The parts of a set variable, trimmed, are its entries. */
  lemma EntriesFound(server: map<string, string>, key: string, j: nat, ok: string -> bool)
    requires key in server
    requires j < |Split(server[key], ',')| && ok(Trim(Split(server[key], ',')[j]))
    requires forall k :: 0 <= k < j ==> !ok(Trim(Split(server[key], ',')[k]))
    ensures var entries := Entries(server, key);
            j < |entries| && entries[j] == Trim(Split(server[key], ',')[j]) && ok(entries[j]) &&
            forall k :: 0 <= k < j ==> !ok(entries[k])
  {
    var parts := Split(server[key], ',');
    var entries := Entries(server, key);
    forall k | 0 <= k < j
      ensures !ok(entries[k])
    {
      assert entries[k] == Trim(parts[k]);
    }
  }

  /** No part of an unset or wholly private variable is public once trimmed. */
  lemma EntriesNotPublic(server: map<string, string>, key: string, ok: string -> bool)
    requires key in server ==> forall k :: 0 <= k < |Split(server[key], ',')| ==> !ok(Trim(Split(server[key], ',')[k]))
    ensures forall k :: 0 <= k < |Entries(server, key)| ==> !ok(Entries(server, key)[k])
  {
    if key in server {
      var parts := Split(server[key], ',');
      var entries := Entries(server, key);
      forall k | 0 <= k < |entries|
        ensures !ok(entries[k])
      {
        assert entries[k] == Trim(parts[k]);
      }
    }
  }

  /** The outer loop of `get_client_ip` passes variable `keys[i]`: none of its
      entries is public, and they join the addresses seen. */
  lemma ScanPassed(server: map<string, string>, keys: seq<string>, i: nat, seen: seq<string>, ok: string -> bool)
    requires i < |keys| && Candidates(server, keys) == seen + Candidates(server, keys[i..])
    requires forall k :: 0 <= k < |seen| ==> !ok(seen[k])
    requires keys[i] in server ==>
               forall k :: 0 <= k < |Split(server[keys[i]], ',')| ==> !ok(Trim(Split(server[keys[i]], ',')[k]))
    ensures var seen' := seen + Entries(server, keys[i]);
            Candidates(server, keys) == seen' + Candidates(server, keys[i + 1..]) &&
            forall k :: 0 <= k < |seen'| ==> !ok(seen'[k])
  {
    CandidatesFrom(server, keys, i);
    var entries := Entries(server, keys[i]);
    var rest := Candidates(server, keys[i + 1..]);
    EntriesNotPublic(server, keys[i], ok);
    var seen' := seen + entries;
    forall k | 0 <= k < |seen'|
      ensures !ok(seen'[k])
    {
      if k < |seen| {
        assert seen'[k] == seen[k];
      } else {
        assert seen'[k] == entries[k - |seen|];
      }
    }
    AppendAssoc(seen, entries, rest);
  }

  lemma AppendAssoc(a: seq<string>, b: seq<string>, c: seq<string>)
    ensures a + (b + c) == (a + b) + c
  {
  }

  /** The loops of `get_client_ip` run out of variables: no address seen is
      public, and the function falls back. */
  lemma ScanNone(server: map<string, string>, keys: seq<string>, seen: seq<string>, ok: string -> bool)
    requires Candidates(server, keys) == seen + Candidates(server, keys[|keys|..])
    requires forall k :: 0 <= k < |seen| ==> !ok(seen[k])
    ensures ClientIpAmong(server, keys, ok) == FallbackIp(server)
  {
    assert keys[|keys|..] == [];
    assert Candidates(server, keys) == seen;
    FirstIndexNone(seen, ok);
  }

  /** The inner loop of `get_client_ip` over one variable's comma-separated
      parts: the first part that is public once trimmed, if any. */
  method ScanEntries(parts: seq<string>, isPublicIp: string -> bool) returns (found: bool, j: nat, address: string)
    ensures found ==> j < |parts| && Trim(parts[j]) == address && isPublicIp(address)
    ensures forall k :: 0 <= k < |parts| && (!found || k < j) ==> !isPublicIp(Trim(parts[k]))
  {
    found, j, address := false, 0, "";
    while j < |parts|
      invariant 0 <= j <= |parts|
      invariant forall k :: 0 <= k < j ==> !isPublicIp(Trim(parts[k]))
    {
      var candidate := Trim(parts[j]);
      if isPublicIp(candidate) {
        found, address := true, candidate;
        return;
      }
      j := j + 1;
    }
  }

  /** The loops of `get_client_ip` over the variable names `keys`: for each
      variable that is set, each trimmed entry in turn; the first public
      address wins. */
  method ScanIpKeys(server: map<string, string>, keys: seq<string>, isPublicIp: string -> bool) returns (ip: string)
    ensures ip == ClientIpAmong(server, keys, isPublicIp)
  {
    ghost var seen: seq<string> := [];
    var i := 0;
    while i < |keys|
      invariant 0 <= i <= |keys|
      invariant Candidates(server, keys) == seen + Candidates(server, keys[i..])
      invariant forall k :: 0 <= k < |seen| ==> !isPublicIp(seen[k])
    {
      var found, j, address := false, 0, "";
      if keys[i] in server {
        found, j, address := ScanEntries(Split(server[keys[i]], ','), isPublicIp);
      }
      if found {
        ScanFound(server, keys, i, seen, j, isPublicIp);
        ip := address;
        return;
      }
      ScanPassed(server, keys, i, seen, isPublicIp);
      seen := seen + Entries(server, keys[i]);
      i := i + 1;
    }
    ScanNone(server, keys, seen, isPublicIp);
    ip := FallbackIp(server);
  }

  // ---------------------------------------------------------------------------
  // Phone format (`validate_phone`)
  // ---------------------------------------------------------------------------

  predicate IsDigit(c: char) {
    '0' <= c <= '9'
  }

  /** `[1-9][\d]{0,15}` matches all of `s`. */
  predicate PhoneDigits(s: string) {
    1 <= |s| <= 16 && '1' <= s[0] <= '9' && forall k :: 1 <= k < |s| ==> IsDigit(s[k])
  }

  /** `[\+]?[1-9][\d]{0,15}` matches all of `s`. */
  predicate PhoneBody(s: string) {
    PhoneDigits(s) || (|s| >= 1 && s[0] == '+' && PhoneDigits(s[1..]))
  }

  /** `preg_match('/^[\+]?[1-9][\d]{0,15}$/', $phone)`; PCRE's `$` also
      matches just before a final newline. */
  function ValidatePhone(phone: string): (ok: bool)
    ensures ok ==> 1 <= |phone| <= 18
    ensures ok ==> forall k :: 0 <= k < |phone| ==> IsDigit(phone[k]) || phone[k] == '+' || phone[k] == '\n'
    ensures ok && phone[|phone| - 1] != '\n' ==> PhoneBody(phone)
  {
    if PhoneBody(phone) then
      PhoneBodyChars(phone);
      true
    else if |phone| >= 2 && phone[|phone| - 1] == '\n' && PhoneBody(phone[..|phone| - 1]) then
      PhoneBodyChars(phone[..|phone| - 1]);
      true
    else
      false
  }

  lemma PhoneBodyChars(s: string)
    requires PhoneBody(s)
    ensures 1 <= |s| <= 17
    ensures forall k :: 0 <= k < |s| ==> IsDigit(s[k]) || s[k] == '+'
  {
    if !PhoneDigits(s) {
      assert forall k :: 1 <= k < |s| ==> s[k] == s[1..][k - 1];
    }
  }

  /** A valid phone always fits the log table's `varchar(50)` column. */
  lemma ValidPhoneFits(phone: string)
    requires ValidatePhone(phone)
    ensures |phone| <= PhoneWidth
  {
  }

  // ---------------------------------------------------------------------------
  // Rate limit (`check_rate_limit`)
  // ---------------------------------------------------------------------------

  /** The two entries of `verifyplus_settings` the check reads. */
  datatype RateSettings = RateSettings(enableRateLimiting: bool, maxAttemptsPerHour: Option<int>)

  /** The attempts of `identifier` logged after `cutoff`. */
  function RecentAttempts(logs: seq<LogRow>, identifier: string, cutoff: int): seq<LogRow> {
    Filter(logs, (r: LogRow) => r.entry.ipAddress == identifier && r.createdAt > cutoff)
  }

  /** `check_rate_limit`: always true when the limit is off; otherwise true
      while fewer than the maximum (10 by default) attempts of that address
      were logged after `oneHourAgo`. */
  function WithinRateLimit(settings: RateSettings, logs: seq<LogRow>, identifier: string, oneHourAgo: int): (ok: bool)
  {
    if !settings.enableRateLimiting then true
    else
      var maxAttempts := if settings.maxAttemptsPerHour.Some? then settings.maxAttemptsPerHour.value else 10;
      |RecentAttempts(logs, identifier, oneHourAgo)| < maxAttempts
  }

  /** With no maximum stored, ten attempts in the window exhaust the limit and nine do not. */
  lemma DefaultLimitIsTen(logs: seq<LogRow>, identifier: string, oneHourAgo: int)
    ensures var s := RateSettings(true, None);
            WithinRateLimit(s, logs, identifier, oneHourAgo) <==> |RecentAttempts(logs, identifier, oneHourAgo)| <= 9
  {
  }

  /** More logged attempts can only exhaust the limit, never restore it. */
  lemma {:induction false} RateLimitMonotone(settings: RateSettings, logs: seq<LogRow>, more: seq<LogRow>, identifier: string, oneHourAgo: int)
    requires WithinRateLimit(settings, logs + more, identifier, oneHourAgo)
    ensures WithinRateLimit(settings, logs, identifier, oneHourAgo)
  {
    FilterAppend(logs, more, (r: LogRow) => r.entry.ipAddress == identifier && r.createdAt > oneHourAgo);
  }

  /** Rows of other addresses, and rows logged before the window, do not count. */
  lemma {:induction false} OtherRowsDoNotCount(settings: RateSettings, logs: seq<LogRow>, r: LogRow, identifier: string, oneHourAgo: int)
    requires r.entry.ipAddress != identifier || r.createdAt <= oneHourAgo
    ensures WithinRateLimit(settings, logs + [r], identifier, oneHourAgo) == WithinRateLimit(settings, logs, identifier, oneHourAgo)
  {
    var keep := (x: LogRow) => x.entry.ipAddress == identifier && x.createdAt > oneHourAgo;
    FilterAppend(logs, [r], keep);
    assert Filter([r], keep) == [];
  }
}
