/** Path strings of hhuOS: splitting, canonical form, and prefixes by component. */
module Paths {

  /** The non-empty pieces between separators, as String::split gives them; `piece` is what was read of the current one. */
  function Tokens(s: string, piece: string): seq<string> {
    if s == "" then (if piece == "" then [] else [piece])
    else if s[0] == '/' then (if piece == "" then [] else [piece]) + Tokens(s[1..], "")
    else Tokens(s[1..], piece + [s[0]])
  }

  /** "." stays, ".." goes up and stops at the root. */
  function Resolve(tokens: seq<string>, parsed: seq<string>): seq<string> {
    if tokens == [] then parsed
    else if tokens[0] == "." then Resolve(tokens[1..], parsed)
    else if tokens[0] == ".." then Resolve(tokens[1..], if parsed == [] then parsed else parsed[..|parsed| - 1])
    else Resolve(tokens[1..], parsed + [tokens[0]])
  }

  /** Every component followed by a separator. */
  function Body(cs: seq<string>): string {
    if cs == [] then "" else cs[0] + "/" + Body(cs[1..])
  }

  /** A separator before every component; the root is the empty string. */
  function Render(cs: seq<string>): string {
    if cs == [] then "" else "/" + cs[0] + Render(cs[1..])
  }

  /** A path as an absolute one. */
  function Absolute(cwd: string, path: string): string
    requires path != ""
  {
    if path[0] == '/' then path else cwd + "/" + path
  }

  /** The components of a path, seen from the working directory. */
  function Components(cwd: string, path: string): seq<string> {
    if path == "" then []
    else Resolve(Tokens(Absolute(cwd, path), ""), [])
  }

  /** File::getCanonicalPath. */
  function Canonical(cwd: string, path: string): string {
    Render(Components(cwd, path))
  }

  /** A mount point's key: a canonical path and a separator. */
  function Key(cs: seq<string>): string {
    "/" + Body(cs)
  }

  predicate IsName(c: string) {
    c != "" && c != "." && c != ".." && '/' !in c
  }

  predicate Clean(cs: seq<string>) {
    forall i | 0 <= i < |cs| :: IsName(cs[i])
  }

  // ----- canonical paths

  lemma {:induction false} TokensHaveNoSlash(s: string, piece: string)
    requires '/' !in piece
    ensures forall i | 0 <= i < |Tokens(s, piece)| :: Tokens(s, piece)[i] != "" && '/' !in Tokens(s, piece)[i]
    decreases |s|
  {
    if s == "" {
    } else {
      if s[0] == '/' { TokensHaveNoSlash(s[1..], ""); } else { TokensHaveNoSlash(s[1..], piece + [s[0]]); }
    }
  }

  lemma {:induction false} ResolveClean(tokens: seq<string>, parsed: seq<string>)
    requires Clean(parsed) && forall i | 0 <= i < |tokens| :: tokens[i] != "" && '/' !in tokens[i]
    ensures Clean(Resolve(tokens, parsed))
    decreases |tokens|
  {
    if tokens == [] {
    } else {
      if tokens[0] == "." {
        ResolveClean(tokens[1..], parsed);
      } else if tokens[0] == ".." {
        ResolveClean(tokens[1..], if parsed == [] then parsed else parsed[..|parsed| - 1]);
      } else {
        ResolveClean(tokens[1..], parsed + [tokens[0]]);
      }
    }
  }

  /** A canonical path has no empty, "." or ".." component. */
  lemma ComponentsClean(cwd: string, path: string)
    ensures Clean(Components(cwd, path))
  {
    if path != "" {
      var p := Absolute(cwd, path);
      TokensHaveNoSlash(p, "");
      ResolveClean(Tokens(p, ""), []);
    }
  }

  lemma {:induction false} TokensOfName(c: string, piece: string, rest: string)
    requires '/' !in c && (rest == "" || rest[0] == '/') && piece + c != ""
    ensures Tokens(c + rest, piece) == [piece + c] + Tokens(rest, "")
    decreases |c|
  {
    if c == "" {
      assert c + rest == rest;
      assert piece + c == piece;
      if rest == "" { assert Tokens(rest, "") == []; }
    } else {
      assert (c + rest)[0] == c[0] && (c + rest)[1..] == c[1..] + rest;
      TokensOfName(c[1..], piece + [c[0]], rest);
      assert piece + [c[0]] + c[1..] == piece + c;
    }
  }

  lemma TokensSlash(x: string)
    ensures Tokens("/" + x, "") == Tokens(x, "")
  {
    assert ("/" + x)[1..] == x;
  }

  lemma {:induction false} TokensOfRender(cs: seq<string>, rest: string)
    requires Clean(cs) && (rest == "" || rest[0] == '/')
    ensures Tokens(Render(cs) + rest, "") == cs + Tokens(rest, "")
    decreases |cs|
  {
    hide Tokens, Render;
    if cs == [] {
      RenderEmpty();
      assert Render(cs) + rest == rest;
    } else {
      var c, ds := cs[0], cs[1..];
      var tail := Render(ds) + rest;
      RenderCons(cs, rest);
      assert IsName(c);
      TokensSlash(c + tail);
      TokensOfName(c, "", tail);
      assert "" + c == c;
      TokensOfRender(ds, rest);
      Regroup(cs, Tokens(rest, ""));
    }
  }

  lemma RenderEmpty()
    ensures Render([]) == ""
  {
  }

  lemma RenderCons(cs: seq<string>, rest: string)
    requires cs != [] && (rest == "" || rest[0] == '/')
    ensures Render(cs) + rest == "/" + (cs[0] + (Render(cs[1..]) + rest))
    ensures var tail := Render(cs[1..]) + rest; tail == "" || tail[0] == '/'
  {
  }

  lemma Regroup(cs: seq<string>, ts: seq<string>)
    requires cs != []
    ensures [cs[0]] + (cs[1..] + ts) == cs + ts
  {
  }

  lemma {:induction false} ResolveOfClean(tokens: seq<string>, parsed: seq<string>)
    requires Clean(tokens)
    ensures Resolve(tokens, parsed) == parsed + tokens
    decreases |tokens|
  {
    if tokens == [] {
    } else {
      assert IsName(tokens[0]);
      ResolveOfClean(tokens[1..], parsed + [tokens[0]]);
      assert parsed + [tokens[0]] + tokens[1..] == parsed + tokens;
    }
  }

  /** Canonicalising a canonical path, with or without a separator at its end, gives it back, from any working directory. */
  lemma CanonicalIdempotent(cwd: string, cs: seq<string>)
    requires Clean(cs)
    ensures Components(cwd, Key(cs)) == cs && Components(cwd, Render(cs)) == cs
    ensures Key(cs) == Render(cs) + "/"
  {
    KeyIsRender(cs);
    TokensOfRender(cs, "/");
    assert Tokens("/", "") == [] by { assert "/"[1..] == ""; }
    TokensOfRender(cs, "");
    assert Render(cs) + "" == Render(cs);
    ResolveOfClean(cs, []);
    assert cs + [] == cs && [] + cs == cs;
    assert Render(cs) == "" || Render(cs)[0] == '/';
  }

  lemma {:induction false} KeyIsRender(cs: seq<string>)
    ensures Key(cs) == Render(cs) + "/"
    decreases |cs|
  {
    if cs == [] {
    } else {
      KeyIsRender(cs[1..]);
      var t := cs[1..];
      calc {
        Key(cs);
        "/" + (cs[0] + "/" + Body(t));
        "/" + cs[0] + ("/" + Body(t));
        "/" + cs[0] + (Render(t) + "/");
        "/" + cs[0] + Render(t) + "/";
      }
    }
  }

  // ----- laws of resolution

  /** A separator parts the pieces on its two sides. */
  lemma {:induction false} TokensSplit(a: string, piece: string, b: string)
    ensures Tokens(a + "/" + b, piece) == Tokens(a, piece) + Tokens(b, "")
    decreases |a|
  {
    var s := a + "/" + b;
    if a == "" {
      assert s[0] == '/' && s[1..] == b;
    } else {
      assert s[0] == a[0] && s[1..] == a[1..] + "/" + b;
      TokensSplit(a[1..], if a[0] == '/' then "" else piece + [a[0]], b);
    }
  }

  /** What comes after a separator, or nothing. */
  predicate Onward(b: string) { b == "" || b[0] == '/' }

  lemma TokensJoin(a: string, b: string)
    requires Onward(b)
    ensures Tokens(a + b, "") == Tokens(a, "") + Tokens(b, "")
  {
    if b == "" {
      assert a + b == a && Tokens(b, "") == [];
    } else {
      assert b == "/" + b[1..] && a + b == a + "/" + b[1..];
      TokensSplit(a, "", b[1..]);
      TokensSlash(b[1..]);
    }
  }

  lemma {:induction false} ResolveSplit(x: seq<string>, y: seq<string>, parsed: seq<string>)
    ensures Resolve(x + y, parsed) == Resolve(y, Resolve(x, parsed))
    decreases |x|
  {
    if x == [] {
      assert x + y == y;
    } else {
      assert (x + y)[0] == x[0] && (x + y)[1..] == x[1..] + y;
      var next :=
        if x[0] == "." then parsed
        else if x[0] == ".." then (if parsed == [] then parsed else parsed[..|parsed| - 1])
        else parsed + [x[0]];
      ResolveSplit(x[1..], y, next);
    }
  }

  /** Something between a path and what follows: it is resolved where it stands. */
  lemma Between(cwd: string, a: string, x: string, b: string)
    requires a != "" && Onward(x) && Onward(b)
    ensures Components(cwd, a + x + b) == Resolve(Tokens(b, ""), Resolve(Tokens(x, ""), Components(cwd, a)))
    ensures Components(cwd, a + b) == Resolve(Tokens(b, ""), Components(cwd, a))
  {
    hide Tokens, Resolve;
    var p := Absolute(cwd, a);
    assert Absolute(cwd, a + x + b) == p + x + b && Absolute(cwd, a + b) == p + b;
    TokensJoin(p + x, b);
    TokensJoin(p, x);
    TokensJoin(p, b);
    ResolveSplit(Tokens(p, "") + Tokens(x, ""), Tokens(b, ""), []);
    ResolveSplit(Tokens(p, ""), Tokens(x, ""), []);
    ResolveSplit(Tokens(p, ""), Tokens(b, ""), []);
  }

  lemma OneToken(c: string)
    requires c != "" && '/' !in c
    ensures Tokens("/" + c, "") == [c]
  {
    TokensSlash(c);
    assert c + "" == c && "" + c == c && Tokens("", "") == [];
    TokensOfName(c, "", "");
  }

  /** A name and ".." behind it cancel. */
  lemma UpCancels(cwd: string, a: string, c: string, b: string)
    requires a != "" && IsName(c) && Onward(b)
    ensures Components(cwd, a + "/" + c + "/.." + b) == Components(cwd, a + b)
  {
    var x := "/" + c + "/..";
    assert a + "/" + c + "/.." + b == a + x + b;
    Between(cwd, a, x, b);
    assert Tokens(x, "") == [c, ".."] by {
      OneToken(c);
      OneToken("..");
      TokensJoin("/" + c, "/..");
    }
    var cs := Components(cwd, a);
    assert Resolve([c, ".."], cs) == Resolve([".."], cs + [c]) by { assert [c, ".."][1..] == [".."]; }
    assert Resolve([".."], cs + [c]) == Resolve([], cs) by { assert [".."][1..] == [] && (cs + [c])[..|cs|] == cs; }
  }

  /** "." and repeated separators do nothing, and neither does ".." at the root. */
  lemma Vanishing(cwd: string, a: string, b: string)
    requires Onward(b)
    ensures a != "" ==> Components(cwd, a + "/." + b) == Components(cwd, a + b)
    ensures a != "" ==> Components(cwd, a + "/" + b) == Components(cwd, a + b)
    ensures Components(cwd, "/.." + b) == Components(cwd, "/" + b)
    ensures Components(cwd, "/." + b) == Components(cwd, "/" + b)
  {
    OneToken(".");
    OneToken("..");
    assert Tokens("/", "") == [] by { assert "/"[1..] == ""; }
    assert ["."][1..] == [] && [".."][1..] == [];
    if a != "" {
      Between(cwd, a, "/.", b);
      Between(cwd, a, "/", b);
    }
    TokensJoin("/..", b);
    TokensJoin("/.", b);
    TokensJoin("/", b);
    ResolveSplit([".."], Tokens(b, ""), []);
    ResolveSplit(["."], Tokens(b, ""), []);
    assert Resolve([".."], []) == [] && Resolve(["."], []) == [];
    assert ("/.." + b)[0] == '/' && ("/." + b)[0] == '/' && ("/" + b)[0] == '/';
    assert [] + Tokens(b, "") == Tokens(b, "");
  }

  /** k times one directory up. */
  function Up(k: nat): string { if k == 0 then "" else "/.." + Up(k - 1) }

  lemma {:induction false} UpResolved(k: nat, cs: seq<string>)
    ensures Onward(Up(k)) && Resolve(Tokens(Up(k), ""), cs) == cs[..if k <= |cs| then |cs| - k else 0]
  {
    if k == 0 {
      assert Tokens("", "") == [];
    } else {
      OneToken("..");
      var up := if cs == [] then cs else cs[..|cs| - 1];
      UpResolved(k - 1, up);
      TokensJoin("/..", Up(k - 1));
      ResolveSplit([".."], Tokens(Up(k - 1), ""), cs);
      assert Resolve([".."], cs) == up by { assert [".."][1..] == []; }
    }
  }

  lemma RenderTokens(cs: seq<string>)
    requires Clean(cs)
    ensures Onward(Render(cs)) && Tokens(Render(cs), "") == cs
  {
    TokensOfRender(cs, "");
    assert Render(cs) + "" == Render(cs) && Tokens("", "") == [] && cs + [] == cs;
  }

  lemma ThreeResolved(w: seq<string>, k: nat, r: seq<string>)
    requires Clean(w) && Clean(r)
    ensures Resolve(Tokens(Render(w) + Up(k) + Render(r), ""), []) == w[..if k <= |w| then |w| - k else 0] + r
  {
    hide Tokens, Resolve, Render, Up;
    UpResolved(k, w);
    RenderTokens(w);
    RenderTokens(r);
    TokensJoin(Render(w) + Up(k), Render(r));
    TokensJoin(Render(w), Up(k));
    ResolveSplit(w + Tokens(Up(k), ""), r, []);
    ResolveSplit(w, Tokens(Up(k), ""), []);
    ResolveOfClean(w, []);
    ResolveOfClean(r, w[..if k <= |w| then |w| - k else 0]);
    assert [] + w == w;
  }

  lemma NotAbsolute(k: nat, r: seq<string>, path: string)
    requires Clean(r) && (k > 0 || r != []) && "/" + path == Up(k) + Render(r)
    ensures path != "" && path[0] != '/'
  {
    var whole := Up(k) + Render(r);
    if k > 0 {
      assert whole[1] == '.';
    } else {
      assert IsName(r[0]) && whole[1] == r[0][0];
    }
    assert path[0] == ("/" + path)[1];
  }

  lemma Joined(base: string, path: string, up: string, tail: string)
    requires "/" + path == up + tail
    ensures base + "/" + path == base + up + tail
  {
    calc {
      base + "/" + path;
      base + ("/" + path);
      base + (up + tail);
      base + up + tail;
    }
  }

  /** A relative path lies below the working directory, or k directories further up. */
  lemma RelativePath(w: seq<string>, k: nat, r: seq<string>, path: string)
    requires Clean(w) && Clean(r) && (k > 0 || r != []) && "/" + path == Up(k) + Render(r)
    ensures Components(Render(w), path) == w[..if k <= |w| then |w| - k else 0] + r
  {
    hide Tokens, Resolve, Render, Up;
    NotAbsolute(k, r, path);
    ThreeResolved(w, k, r);
    Joined(Render(w), path, Up(k), Render(r));
  }

  // ----- prefixes

  lemma NameThenSlash(a: string, b: string, x: string, y: string)
    requires '/' !in a && '/' !in b
    ensures a + "/" + x <= b + "/" + y <==> a == b && x <= y
  {
    var s, t := a + "/" + x, b + "/" + y;
    if s <= t {
      assert s[|a|] == '/' && t[|b|] == '/';
      assert a == s[..|a|] && b == t[..|b|];
      assert x == s[|a| + 1..] && y == t[|b| + 1..];
    }
  }

  lemma {:induction false} BodyPrefix(a: seq<string>, b: seq<string>)
    requires Clean(a) && Clean(b)
    ensures Body(a) <= Body(b) <==> a <= b
    decreases |a|
  {
    if a == [] || b == [] {
    } else {
      assert IsName(a[0]) && IsName(b[0]);
      NameThenSlash(a[0], b[0], Body(a[1..]), Body(b[1..]));
      BodyPrefix(a[1..], b[1..]);
      assert a == [a[0]] + a[1..] && b == [b[0]] + b[1..];
    }
  }

  /** One key begins with another exactly when its components do: "/ab/" does not lie under "/a/". */
  lemma KeyPrefix(a: seq<string>, b: seq<string>)
    requires Clean(a) && Clean(b)
    ensures Key(a) <= Key(b) <==> a <= b
  {
    BodyPrefix(a, b);
    assert Key(a)[1..] == Body(a) && Key(b)[1..] == Body(b);
  }

  lemma KeyInjective(a: seq<string>, b: seq<string>)
    requires Clean(a) && Clean(b)
    ensures Key(a) == Key(b) <==> a == b
  {
    KeyPrefix(a, b);
    KeyPrefix(b, a);
  }
}
