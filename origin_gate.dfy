/**
 * The origin gate: a request interceptor that forwards a request only when
 * its `Origin` (or, failing that, `Referer`) header starts with one of the
 * configured allowed origins. The gate is switched off when the allow-list
 * is empty, and a few fixed paths are never checked.
 */
module OriginGate {
  import opened Wrappers
  import opened StrOps

  /** The paths whose prefixes are exempt from the check. */
  const BypassPaths: seq<string> := ["/health", "/docs", "/openapi.json"]

  const RejectDetail: string := "Direct access not allowed"

  /** What the gate does with a request: hand it to the next handler and
      return that handler's response unchanged, or answer it with status 401
      and the JSON body `{"detail": detail}` without calling the next handler. */
  datatype Decision = Forward | Reject401(detail: string)

  /** The parts of a request the gate reads: the path and the two headers,
      either of which may be missing. */
  datatype Request = Request(path: string, origin: Option<string>, referer: Option<string>)

  /** One configured gate. Both lists are fixed when the gate is built. */
  datatype Gate = Gate(allowedOrigins: seq<string>, bypassPaths: seq<string>)

  // ---------------------------------------------------------------------------
  // Parsing the allow-list

  /** An allow-list entry as the parser leaves it: non-empty and already stripped. */
  predicate IsCleanEntry(e: string) {
    e != [] && Strip(e) == e
  }

  /** One piece of the configuration string: its stripped form, or nothing
      when that is empty. */
  function CleanPiece(piece: string): seq<string> {
    if Strip(piece) == [] then [] else [Strip(piece)]
  }

  /** Keep the stripped form of every piece whose stripped form is non-empty. */
  function CleanPieces(pieces: seq<string>): (r: seq<string>)
    ensures |r| <= |pieces|
  {
    if pieces == [] then [] else CleanPiece(pieces[0]) + CleanPieces(pieces[1..])
  }

  lemma CleanPieceIsClean(piece: string)
    ensures forall i :: 0 <= i < |CleanPiece(piece)| ==> IsCleanEntry(CleanPiece(piece)[i])
  {
    if Strip(piece) != [] {
      StripIdempotent(piece);
      assert IsCleanEntry(Strip(piece));
      assert CleanPiece(piece) == [Strip(piece)];
    }
  }

  /** Whatever survives cleaning is a clean entry. */
  lemma {:induction false} CleanPiecesAreClean(pieces: seq<string>)
    ensures forall i :: 0 <= i < |CleanPieces(pieces)| ==> IsCleanEntry(CleanPieces(pieces)[i])
  {
    if pieces != [] {
      CleanPiecesAreClean(pieces[1..]);
      CleanPieceIsClean(pieces[0]);
      var h := CleanPiece(pieces[0]);
      var t := CleanPieces(pieces[1..]);
      assert CleanPieces(pieces) == h + t;
      forall i | 0 <= i < |h + t| ensures IsCleanEntry((h + t)[i]) {
        if i >= |h| { assert (h + t)[i] == t[i - |h|]; } else { assert (h + t)[i] == h[i]; }
      }
    }
  }

  /** Stripping and dropping pieces adds no character, so no entry holds
      a comma when no piece does. */
  lemma {:induction false} CleanPiecesNoComma(pieces: seq<string>)
    requires forall i :: 0 <= i < |pieces| ==> ',' !in pieces[i]
    ensures forall i :: 0 <= i < |CleanPieces(pieces)| ==> ',' !in CleanPieces(pieces)[i]
  {
    if pieces != [] {
      CleanPiecesNoComma(pieces[1..]);
      StripKeepsOnlyOwnChars(pieces[0], ',');
      var h := CleanPiece(pieces[0]);
      var t := CleanPieces(pieces[1..]);
      assert CleanPieces(pieces) == h + t;
      forall i | 0 <= i < |h + t| ensures ',' !in (h + t)[i] {
        if i >= |h| { assert (h + t)[i] == t[i - |h|]; }
      }
    }
  }

  /** The allow-list read from the comma-separated configuration string:
      the stripped, non-empty pieces, in order. */
  function ParseAllowList(env: string): (r: seq<string>)
    ensures forall i :: 0 <= i < |r| ==> IsCleanEntry(r[i])
    ensures forall i :: 0 <= i < |r| ==> ',' !in r[i]
  {
    CleanPiecesAreClean(Split(env, ','));
    SplitPiecesLackSep(env, ',');
    CleanPiecesNoComma(Split(env, ','));
    CleanPieces(Split(env, ','))
  }

  lemma {:induction false} CleanPiecesConcat(a: seq<string>, b: seq<string>)
    ensures CleanPieces(a + b) == CleanPieces(a) + CleanPieces(b)
  {
    if a != [] {
      var ab := a + b;
      assert ab != [] && ab[0] == a[0] && ab[1..] == a[1..] + b;
      CleanPiecesConcat(a[1..], b);
      var h := CleanPiece(a[0]);
      calc {
        CleanPieces(ab);
        h + CleanPieces(a[1..] + b);
        h + (CleanPieces(a[1..]) + CleanPieces(b));
        (h + CleanPieces(a[1..])) + CleanPieces(b);
        CleanPieces(a) + CleanPieces(b);
      }
    } else {
      assert a + b == b;
    }
  }

  /** The entries of `a,b` are those of `a` followed by those of `b`: the
      list keeps the input order and pieces do not interact. */
  lemma ParseAllowListConcat(a: string, b: string)
    ensures ParseAllowList(a + [','] + b) == ParseAllowList(a) + ParseAllowList(b)
  {
    SplitConcat(a, b, ',');
    CleanPiecesConcat(Split(a, ','), Split(b, ','));
  }

  /** A string with no comma yields its stripped form, or nothing if that is empty. */
  lemma ParseAllowListPiece(s: string)
    requires ',' !in s
    ensures ParseAllowList(s) == if Strip(s) == [] then [] else [Strip(s)]
  {
    SplitNoSep(s, ',');
    assert CleanPieces([s]) == CleanPiece(s) + CleanPieces([]);
  }

  /** The pieces all strip to nothing exactly when none survives. */
  lemma {:induction false} CleanPiecesEmptyIff(pieces: seq<string>)
    ensures CleanPieces(pieces) == [] <==> forall i :: 0 <= i < |pieces| ==> AllSpace(pieces[i])
  {
    if pieces != [] {
      CleanPiecesEmptyIff(pieces[1..]);
      StripEmptyIff(pieces[0]);
      assert forall i :: 1 <= i < |pieces| ==> pieces[i] == pieces[1..][i - 1];
    }
  }

  /** The allow-list is empty exactly when the configuration string holds
      nothing but commas and whitespace (in particular when it is empty). */
  lemma ParseAllowListEmptyIff(env: string)
    ensures ParseAllowList(env) == [] <==> forall k :: 0 <= k < |env| ==> env[k] == ',' || IsSpace(env[k])
  {
    var pieces := Split(env, ',');
    SplitPiecesLackSep(env, ',');
    CleanPiecesEmptyIff(pieces);
    JoinSplit(env, ',');
    JoinAllSpaceIff(pieces);
  }

  /** The joined string holds only commas and whitespace exactly when every
      piece is whitespace. */
  lemma {:induction false} JoinAllSpaceIff(pieces: seq<string>)
    requires |pieces| >= 1
    ensures var s := Join(pieces, ',');
      (forall k :: 0 <= k < |s| ==> s[k] == ',' || IsSpace(s[k]))
      <==> (forall i :: 0 <= i < |pieces| ==> (forall k :: 0 <= k < |pieces[i]| ==> pieces[i][k] == ',' || IsSpace(pieces[i][k])))
  {
    if |pieces| > 1 {
      JoinAllSpaceIff(pieces[1..]);
      var t := Join(pieces[1..], ',');
      var s := pieces[0] + [','] + t;
      assert forall k :: 0 <= k < |pieces[0]| ==> s[k] == pieces[0][k];
      assert forall k :: 0 <= k < |t| ==> s[|pieces[0]| + 1 + k] == t[k];
      assert forall i :: 1 <= i < |pieces| ==> pieces[i] == pieces[1..][i - 1];
      if forall k :: 0 <= k < |s| ==> s[k] == ',' || IsSpace(s[k]) {
        assert forall k :: 0 <= k < |t| ==> t[k] == ',' || IsSpace(t[k]) by {
          forall k | 0 <= k < |t| ensures t[k] == ',' || IsSpace(t[k]) {
            assert s[|pieces[0]| + 1 + k] == t[k];
          }
        }
      }
      if forall i :: 0 <= i < |pieces| ==> (forall k :: 0 <= k < |pieces[i]| ==> pieces[i][k] == ',' || IsSpace(pieces[i][k])) {
        forall k | 0 <= k < |s| ensures s[k] == ',' || IsSpace(s[k]) {
          if k > |pieces[0]| { assert s[k] == t[k - |pieces[0]| - 1]; }
        }
      }
    }
  }

  /** Building the gate from the configuration string, as its constructor does. */
  function NewGate(env: string): (g: Gate)
    ensures g.bypassPaths == BypassPaths
    ensures forall i :: 0 <= i < |g.allowedOrigins| ==> IsCleanEntry(g.allowedOrigins[i])
    ensures g.allowedOrigins == [] <==> forall k :: 0 <= k < |env| ==> env[k] == ',' || IsSpace(env[k])
  {
    ParseAllowListEmptyIff(env);
    Gate(ParseAllowList(env), BypassPaths)
  }

  // ---------------------------------------------------------------------------
  // Deciding one request

  /** `any(s.startswith(p) for p in prefixes)`. */
  function AnyPrefix(prefixes: seq<string>, s: string): (r: bool)
    ensures r <==> exists i :: 0 <= i < |prefixes| && IsPrefix(prefixes[i], s)
  {
    if prefixes == [] then false
    else IsPrefix(prefixes[0], s) || AnyPrefix(prefixes[1..], s)
  }

  /** `headers.get("origin") or headers.get("referer", "")`. */
  function ChooseOrigin(req: Request): (o: string)
    ensures req.origin.Some? && req.origin.value != [] ==> o == req.origin.value
    ensures req.origin.None? || req.origin.value == [] ==> o == req.referer.GetOr([])
  {
    match req.origin
    case Some(v) => if v != [] then v else req.referer.GetOr([])
    case None => req.referer.GetOr([])
  }

  /** An origin is allowed when it is non-empty and starts with some entry. */
  function IsOriginAllowed(g: Gate, origin: string): (r: bool)
    ensures r <==> origin != [] && exists i :: 0 <= i < |g.allowedOrigins| && IsPrefix(g.allowedOrigins[i], origin)
  {
    if origin == [] then false else AnyPrefix(g.allowedOrigins, origin)
  }

  function Dispatch(g: Gate, req: Request): (d: Decision)
    ensures g.allowedOrigins == [] ==> d == Forward
    ensures (exists i :: 0 <= i < |g.bypassPaths| && IsPrefix(g.bypassPaths[i], req.path)) ==> d == Forward
    ensures d.Reject401? ==> d.detail == RejectDetail
    ensures d == Forward || d == Reject401(RejectDetail)
  {
    if g.allowedOrigins == [] then Forward
    else if AnyPrefix(g.bypassPaths, req.path) then Forward
    else if !IsOriginAllowed(g, ChooseOrigin(req)) then Reject401(RejectDetail)
    else Forward
  }

  /** The whole decision: a request is forwarded exactly when the gate is
      off, the path is exempt, or the chosen origin is non-empty and starts
      with an allowed entry; otherwise it is answered with the fixed 401. */
  lemma DispatchForwardIff(g: Gate, req: Request)
    ensures Dispatch(g, req) == Forward <==>
      g.allowedOrigins == []
      || (exists i :: 0 <= i < |g.bypassPaths| && IsPrefix(g.bypassPaths[i], req.path))
      || (ChooseOrigin(req) != [] && exists i :: 0 <= i < |g.allowedOrigins| && IsPrefix(g.allowedOrigins[i], ChooseOrigin(req)))
    ensures Dispatch(g, req) != Forward ==> Dispatch(g, req) == Reject401(RejectDetail)
  {
  }

  /** A request without either header is rejected unless the gate is off or
      the path is exempt: the empty origin matches nothing. */
  lemma NoHeadersRejected(g: Gate, path: string)
    requires g.allowedOrigins != []
    requires !AnyPrefix(g.bypassPaths, path)
    ensures Dispatch(g, Request(path, None, None)) == Reject401(RejectDetail)
  {
  }

  /** An empty `Origin` header falls back to `Referer`, exactly as a missing one does. */
  lemma EmptyOriginIsMissing(g: Gate, path: string, referer: Option<string>)
    ensures Dispatch(g, Request(path, Some([]), referer)) == Dispatch(g, Request(path, None, referer))
  {
  }

  // ---------------------------------------------------------------------------
  // Examples for the allow-list ["https://example.com"]

  const Example: Gate := Gate(["https://example.com"], BypassPaths)

  lemma HealthBypassesCheck()
    ensures Dispatch(Example, Request("/health", Some("https://evil.com"), None)) == Forward
  {
    assert IsPrefix(BypassPaths[0], "/health");
  }

  lemma PrefixOfAllowedForwarded()
    ensures Dispatch(Example, Request("/api/x", Some("https://example.com/app"), None)) == Forward
  {
    assert IsPrefix(Example.allowedOrigins[0], "https://example.com/app");
  }

  lemma OtherOriginRejected()
    ensures Dispatch(Example, Request("/api/x", Some("https://evil.com"), None)) == Reject401(RejectDetail)
  {
    assert !IsPrefix(BypassPaths[0], "/api/x");
    assert "/api/x"[1] != BypassPaths[1][1];
    assert !IsPrefix(BypassPaths[2], "/api/x");
    assert !IsPrefix(Example.allowedOrigins[0], "https://evil.com");
  }

  /** The match is a plain string prefix test, so a look-alike host that
      begins with an allowed origin is let through. */
  lemma LookalikeHostForwarded()
    ensures Dispatch(Example, Request("/api/x", Some("https://example.com.evil.net"), None)) == Forward
  {
    assert IsPrefix(Example.allowedOrigins[0], "https://example.com.evil.net");
  }
}
