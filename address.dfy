/** Resolver addresses: the string helpers the proxy uses from Go's `strings`
    package, default-port normalisation (`ensurePortForDNSServer`) and the
    parsing of the comma-separated upstream list (`parseUpstreamServers`). */
module Address {

  /** Index of the last occurrence of `c` in `s`, or -1 when `c` does not
      occur (Go's `strings.LastIndex` with a one-character separator). */
  function LastIndex(s: string, c: char): (i: int)
    ensures -1 <= i < |s|
    ensures i >= 0 ==> s[i] == c
    ensures forall k :: i < k < |s| ==> s[k] != c
  {
    if s == [] then -1
    else if s[|s| - 1] == c then |s| - 1
    else LastIndex(s[..|s| - 1], c)
  }

  /** Number of occurrences of `c` in `s` (Go's `strings.Count`). */
  function Count(s: string, c: char): (n: nat)
    ensures n <= |s|
    ensures n == 0 <==> c !in s
  {
    if s == [] then 0
    else (if s[0] == c then 1 else 0) + Count(s[1..], c)
  }

  /** `Count` is the number of occurrences: the multiplicity of `c` in `s`. */
  lemma {:induction false} CountOccurrences(s: string, c: char)
    ensures Count(s, c) == multiset(s)[c]
  {
    if s != [] {
      CountOccurrences(s[1..], c);
      assert s == [s[0]] + s[1..];
    }
  }

  predicate HasPrefix(s: string, prefix: string) {
    |prefix| <= |s| && s[..|prefix|] == prefix
  }

  predicate HasSuffix(s: string, suffix: string) {
    |suffix| <= |s| && s[|s| - |suffix|..] == suffix
  }

  /** White space as Go's `unicode.IsSpace` defines it, which is what
      `strings.TrimSpace` strips. */
  predicate IsSpace(c: char) {
    c == ' ' || c == '\t' || c == '\n' || c == '\r' || c == '\U{0B}' || c == '\U{0C}'
    || c == '\U{85}' || c == '\U{A0}' || c == '\U{1680}'
    || ('\U{2000}' <= c <= '\U{200A}')
    || c == '\U{2028}' || c == '\U{2029}' || c == '\U{202F}' || c == '\U{205F}' || c == '\U{3000}'
  }

  /** `s` with its leading white space removed. */
  function TrimLeft(s: string): string {
    if s != [] && IsSpace(s[0]) then TrimLeft(s[1..]) else s
  }

  /** `s` with its trailing white space removed. */
  function TrimRight(s: string): string {
    if s != [] && IsSpace(s[|s| - 1]) then TrimRight(s[..|s| - 1]) else s
  }

  /** Go's `strings.TrimSpace`. */
  function TrimSpace(s: string): string {
    TrimRight(TrimLeft(s))
  }

  lemma {:induction false} TrimLeftSuffix(s: string)
    ensures var r := TrimLeft(s);
      |r| <= |s| && r == s[|s| - |r|..]
      && (forall k :: 0 <= k < |s| - |r| ==> IsSpace(s[k]))
      && (r == [] || !IsSpace(r[0]))
  {
    if s != [] && IsSpace(s[0]) {
      var t := s[1..];
      TrimLeftSuffix(t);
      var r := TrimLeft(t);
      assert TrimLeft(s) == r;
      assert t[|t| - |r|..] == s[|s| - |r|..];
      forall k | 0 <= k < |s| - |r| ensures IsSpace(s[k]) {
        if k > 0 {
          assert s[k] == t[k - 1];
        }
      }
    }
  }

  lemma {:induction false} TrimRightPrefix(s: string)
    ensures var r := TrimRight(s);
      |r| <= |s| && r == s[..|r|]
      && (forall k :: |r| <= k < |s| ==> IsSpace(s[k]))
      && (r == [] || !IsSpace(r[|r| - 1]))
  {
    if s != [] && IsSpace(s[|s| - 1]) {
      var t := s[..|s| - 1];
      TrimRightPrefix(t);
      var r := TrimRight(t);
      assert TrimRight(s) == r;
      assert t[..|r|] == s[..|r|];
      forall k | |r| <= k < |s| ensures IsSpace(s[k]) {
        if k < |t| {
          assert s[k] == t[k];
        }
      }
    }
  }

  /** `TrimSpace` cuts white space only, and only at the two ends: it returns
      the slice `s[i..j]` that is left once the white space before `i` and
      from `j` on is cut, that slice neither starts nor ends with white space,
      and it is "" exactly when `s` is all white space. */
  lemma TrimSpaceSlice(s: string)
    ensures var r := TrimSpace(s);
      exists i {:trigger s[i..]} :: 0 <= i <= |s| - |r| && r == s[i..][..|r|]
        && (forall k :: 0 <= k < i ==> IsSpace(s[k]))
        && (forall k :: i + |r| <= k < |s| ==> IsSpace(s[k]))
    ensures var r := TrimSpace(s); r == [] || (!IsSpace(r[0]) && !IsSpace(r[|r| - 1]))
    ensures TrimSpace(s) == [] <==> forall k :: 0 <= k < |s| ==> IsSpace(s[k])
  {
    var l := TrimLeft(s);
    TrimLeftSuffix(s);
    var r := TrimRight(l);
    TrimRightPrefix(l);
    var i := |s| - |l|;
    assert l == s[i..];
    assert r == s[i..][..|r|];
    forall k | i + |r| <= k < |s| ensures IsSpace(s[k]) {
      assert s[k] == l[k - i];
    }
  }

  /** Go's `strings.Split(s, ",")`: the pieces between commas; the empty
      string gives one empty piece. */
  function Split(s: string): (pieces: seq<string>)
    ensures |pieces| == Count(s, ',') + 1
    ensures forall p :: p in pieces ==> ',' !in p
  {
    if s == [] then [""]
    else
      var rest := Split(s[1..]);
      if s[0] == ',' then [""] + rest
      else [[s[0]] + rest[0]] + rest[1..]
  }

  /** Go's `strings.Join(pieces, ",")`, the inverse of `Split`. */
  function Join(pieces: seq<string>): string
    requires pieces != []
  {
    if |pieces| == 1 then pieces[0] else pieces[0] + "," + Join(pieces[1..])
  }

  lemma {:induction false} JoinSplit(s: string)
    ensures Join(Split(s)) == s
  {
    if s != [] {
      var rest := Split(s[1..]);
      JoinSplit(s[1..]);
      assert s == [s[0]] + s[1..];
      if s[0] == ',' {
        var ps := [""] + rest;
        assert Split(s) == ps;
        assert ps[1..] == rest;
        assert Join(ps) == "" + "," + Join(rest);
      } else {
        assert Split(s) == [[s[0]] + rest[0]] + rest[1..];
        JoinPrepend(s[0], rest);
      }
    }
  }

  lemma {:induction false} JoinPrepend(c: char, pieces: seq<string>)
    requires pieces != []
    ensures Join([[c] + pieces[0]] + pieces[1..]) == [c] + Join(pieces)
  {
    var ps := [[c] + pieces[0]] + pieces[1..];
    assert ps[1..] == pieces[1..];
  }

  lemma {:induction false} SplitJoin(pieces: seq<string>)
    requires pieces != []
    requires forall p :: p in pieces ==> ',' !in p
    ensures Split(Join(pieces)) == pieces
  {
    if |pieces| == 1 {
      SplitCommaFree(pieces[0]);
    } else {
      SplitJoin(pieces[1..]);
      SplitAfterComma(pieces[0], Join(pieces[1..]));
      assert pieces == [pieces[0]] + pieces[1..];
    }
  }

  lemma {:induction false} SplitCommaFree(s: string)
    requires ',' !in s
    ensures Split(s) == [s]
  {
    if s != [] {
      SplitCommaFree(s[1..]);
      assert [s[0]] + s[1..] == s;
    }
  }

  lemma {:induction false} SplitAfterComma(p: string, t: string)
    requires ',' !in p
    ensures Split(p + "," + t) == [p] + Split(t)
  {
    var s := p + "," + t;
    if p == [] {
      assert s[0] == ',' && s[1..] == t;
    } else {
      assert s[0] == p[0] && s[1..] == p[1..] + "," + t;
      SplitAfterComma(p[1..], t);
      var rest := Split(s[1..]);
      assert rest == [p[1..]] + Split(t);
      assert rest[0] == p[1..] && rest[1..] == Split(t);
      assert [p[0]] + p[1..] == p;
    }
  }

  /** An address carries a port when its last ':' comes after its last ']'
      (the first test of `ensurePortForDNSServer`). */
  predicate HasPort(s: string) {
    LastIndex(s, ':') > LastIndex(s, ']')
  }

  const DefaultPort: string := ":53"

  /** Appends the default DNS port to an address that has none, bracketing
      it first when it has more than one ':' and yet reached the last test. */
  function EnsurePortForDNSServer(server: string): (r: string)
    ensures HasPort(r)
    ensures r == server || r == server + DefaultPort || r == "[" + server + "]" + DefaultPort
    ensures r == server <==> HasPort(server)
  {
    if HasPort(server) then server
    else if HasPrefix(server, "[") && HasSuffix(server, "]") then
      PortAppended(server);
      server + DefaultPort
    else if Count(server, ':') > 1 then
      PortAppended("[" + server + "]");
      "[" + server + "]" + DefaultPort
    else
      PortAppended(server);
      server + DefaultPort
  }

  lemma PortAppended(s: string)
    ensures HasPort(s + DefaultPort)
  {
    var t := s + DefaultPort;
    assert t[|s|] == ':';
  }

  /** Normalising twice gives the same address as normalising once. */
  lemma EnsurePortIdempotent(s: string)
    ensures EnsurePortForDNSServer(EnsurePortForDNSServer(s)) == EnsurePortForDNSServer(s)
  {
  }

  /** A colon-free address, bracketed or not, gets ":53" appended. */
  lemma ColonFreeGetsPort(s: string)
    requires ':' !in s
    ensures EnsurePortForDNSServer(s) == s + DefaultPort
  {
  }

  /** A bracketed address "[x]" becomes "[x]:53", whatever x holds. */
  lemma BracketedGetsPort(x: string)
    ensures EnsurePortForDNSServer("[" + x + "]") == "[" + x + "]" + DefaultPort
  {
    var s := "[" + x + "]";
    assert s[|s| - 1] == ']';
    assert s[..1] == "[";
  }

  /** An address with a ':' and no ']' — "8.8.8.8:53", and also a bare IPv6
      literal such as "2001:db8::1" — is returned unchanged. */
  lemma ColonWithoutBracketUnchanged(s: string)
    requires ':' in s && ']' !in s
    ensures EnsurePortForDNSServer(s) == s
  {
  }

  /** The bracketing branch is reached only by strings holding a ']' and more
      than one ':'. */
  lemma BracketingNeedsCloseBracket(s: string)
    ensures EnsurePortForDNSServer(s) == "[" + s + "]" + DefaultPort ==> ']' in s && Count(s, ':') > 1
  {
    var r := EnsurePortForDNSServer(s);
    if r == "[" + s + "]" + DefaultPort {
      assert |r| == |s| + 5;
      assert !HasPort(s) && Count(s, ':') > 1;
      assert LastIndex(s, ':') >= 0;
    }
  }

  /** Bracketing example: `a:b:]` has no port (its last ':' precedes its
      last ']'), is not of the form `[...]` and holds two ':', so it is
      wrapped in brackets. */
  lemma BracketingExample()
    ensures EnsurePortForDNSServer("a:b:]") == "[a:b:]]:53"
  {
    var s: string := "a:b:]";
    assert LastIndex(s, ']') == 4;
    assert LastIndex(s, ':') == 3;
    assert s[..1] == "a" && s[..1] != "[";
    assert Count(s, ':') == 2;
  }

  /** IPv4 examples: `8.8.8.8` gets `:53`; `8.8.8.8:53` is unchanged. */
  lemma IPv4Examples()
    ensures EnsurePortForDNSServer("8.8.8.8") == "8.8.8.8:53"
    ensures EnsurePortForDNSServer("8.8.8.8:53") == "8.8.8.8:53"
  {
    var v4: string := "8.8.8.8";
    ColonFreeGetsPort(v4);
    var v4p: string := "8.8.8.8:53";
    assert v4p[7] == ':';
    ColonWithoutBracketUnchanged(v4p);
  }

  /** IPv6 addresses, normalised as the code does it: the bare literal is left
      as it is, the bracketed one gets the port. */
  lemma IPv6Examples()
    ensures EnsurePortForDNSServer("2001:db8::1") == "2001:db8::1"
    ensures EnsurePortForDNSServer("[2001:db8::1]") == "[2001:db8::1]:53"
  {
    var v6: string := "2001:db8::1";
    assert v6[4] == ':';
    ColonWithoutBracketUnchanged(v6);
    BracketedGetsPort(v6);
    var b6: string := "[2001:db8::1]";
    assert b6 == "[" + v6 + "]";
    assert b6 + DefaultPort == "[2001:db8::1]:53";
  }

  /** The servers named by a list of comma-separated pieces: each piece
      trimmed, blank ones dropped, the others normalised, in order. */
  function ParsePieces(pieces: seq<string>): (servers: seq<string>)
    ensures |servers| <= |pieces|
  {
    if pieces == [] then []
    else ParsePieces(pieces[..|pieces| - 1]) + ParsePiece(pieces[|pieces| - 1])
  }

  /** What one piece contributes: nothing when blank, else its normalised,
      trimmed form. */
  function ParsePiece(piece: string): (servers: seq<string>)
    ensures |servers| <= 1
  {
    var t := TrimSpace(piece);
    if t != "" then [EnsurePortForDNSServer(t)] else []
  }

  /** No server is parsed exactly when every piece is blank: empty input,
      white space only, or commas only. */
  lemma ParsePiecesEmpty(pieces: seq<string>)
    ensures ParsePieces(pieces) == [] <==> forall i :: 0 <= i < |pieces| ==> TrimSpace(pieces[i]) == ""
  {
    ParsePiecesNonBlank(pieces);
    NonBlankEmpty(pieces);
  }

  /** No piece is kept exactly when every piece trims to blank. */
  lemma {:induction false} NonBlankEmpty(pieces: seq<string>)
    ensures NonBlank(pieces) == [] <==> forall i :: 0 <= i < |pieces| ==> TrimSpace(pieces[i]) == ""
  {
    if pieces != [] {
      var n := |pieces| - 1;
      var init := pieces[..n];
      NonBlankEmpty(init);
      assert forall i :: 0 <= i < n ==> init[i] == pieces[i];
    }
  }

  /** Each parsed server is the normalised, trimmed form of a non-blank
      piece, the `i`-th. */
  lemma {:induction false} ParsePiecesElements(pieces: seq<string>, k: nat) returns (i: nat)
    requires k < |ParsePieces(pieces)|
    ensures i < |pieces| && TrimSpace(pieces[i]) != ""
    ensures ParsePieces(pieces)[k] == EnsurePortForDNSServer(TrimSpace(pieces[i]))
  {
    var n := |pieces| - 1;
    var init := pieces[..n];
    var front := ParsePieces(init);
    assert ParsePieces(pieces) == front + ParsePiece(pieces[n]);
    if k < |front| {
      i := ParsePiecesElements(init, k);
      assert init[i] == pieces[i];
    } else {
      i := n;
    }
  }

  /** Conversely every non-blank piece yields a parsed server: parsing
      is the normalised, trimmed form of each non-blank piece, in input
      order. */
  lemma {:induction false} ParsePiecesNonBlank(pieces: seq<string>)
    ensures |ParsePieces(pieces)| == |NonBlank(pieces)|
    ensures forall k :: 0 <= k < |NonBlank(pieces)| ==>
      ParsePieces(pieces)[k] == EnsurePortForDNSServer(TrimSpace(NonBlank(pieces)[k]))
  {
    if pieces != [] {
      var n := |pieces| - 1;
      var init := pieces[..n];
      ParsePiecesNonBlank(init);
      var front := ParsePieces(init);
      var kept := NonBlank(init);
      assert ParsePieces(pieces) == front + ParsePiece(pieces[n]);
      assert NonBlank(pieces) == kept + (if TrimSpace(pieces[n]) != "" then [pieces[n]] else []);
    }
  }

  /** The non-blank pieces, in order. */
  function NonBlank(pieces: seq<string>): (kept: seq<string>)
    ensures forall p :: p in kept ==> TrimSpace(p) != ""
  {
    if pieces == [] then []
    else NonBlank(pieces[..|pieces| - 1])
         + (if TrimSpace(pieces[|pieces| - 1]) != "" then [pieces[|pieces| - 1]] else [])
  }

  /** A piece is kept exactly when it is one of the pieces and non-blank. */
  lemma {:induction false} NonBlankMembers(pieces: seq<string>, p: string)
    ensures p in NonBlank(pieces) <==> p in pieces && TrimSpace(p) != ""
  {
    if pieces != [] {
      var init := pieces[..|pieces| - 1];
      NonBlankMembers(init, p);
      assert pieces == init + [pieces[|pieces| - 1]];
    }
  }

  /** Selection works piece by piece, so the kept pieces are in input order. */
  lemma {:induction false} NonBlankAppend(a: seq<string>, b: seq<string>)
    ensures NonBlank(a + b) == NonBlank(a) + NonBlank(b)
    decreases |b|
  {
    if b == [] {
      assert a + b == a;
    } else {
      var n := |b| - 1;
      var ab := a + b;
      assert ab[..|ab| - 1] == a + b[..n];
      assert ab[|ab| - 1] == b[n];
      var tail := if TrimSpace(b[n]) != "" then [b[n]] else [];
      assert NonBlank(ab) == NonBlank(a + b[..n]) + tail;
      assert NonBlank(b) == NonBlank(b[..n]) + tail;
      NonBlankAppend(a, b[..n]);
    }
  }

  /** Pieces that are all non-blank are all kept, unchanged. */
  lemma {:induction false} NonBlankKeepsAll(pieces: seq<string>)
    requires forall i :: 0 <= i < |pieces| ==> TrimSpace(pieces[i]) != ""
    ensures NonBlank(pieces) == pieces
  {
    if pieces != [] {
      NonBlankKeepsAll(pieces[..|pieces| - 1]);
      assert pieces == pieces[..|pieces| - 1] + [pieces[|pieces| - 1]];
    }
  }

  /** `parseUpstreamServers`: split on ',', trim each piece, skip blank
      pieces and normalise the rest, appending in input order. */
  method ParseUpstreamServers(servers: string) returns (result: seq<string>)
    ensures result == ParsePieces(Split(servers))
    ensures |result| <= Count(servers, ',') + 1
    ensures forall s :: s in result ==> HasPort(s)
  {
    var serverList := Split(servers);
    result := [];
    var i := 0;
    while i < |serverList|
      invariant 0 <= i <= |serverList|
      invariant result == ParsePieces(serverList[..i])
      invariant forall s :: s in result ==> HasPort(s)
    {
      var server := TrimSpace(serverList[i]);
      assert serverList[..i + 1][..i] == serverList[..i];
      if server != "" {
        server := EnsurePortForDNSServer(server);
        result := result + [server];
      }
      i := i + 1;
    }
    assert serverList[..i] == serverList;
  }
}
