/** `html_escape` (crates/server/src/ui.rs): five whole-string replacements, one after another. */
module Html {

  /** `s.replace(c, sub)` for one character. */
  function Replaced(s: string, c: char, sub: string): string {
    if s == "" then "" else (if s[0] == c then sub else [s[0]]) + Replaced(s[1..], c, sub)
  }

  function Escape(s: string): string {
    var angles := Replaced(Replaced(Replaced(s, '&', "&amp;"), '<', "&lt;"), '>', "&gt;");
    Replaced(Replaced(angles, '"', "&quot;"), '\'', "&#39;")
  }

  function Entity(c: char): string {
    if c == '&' then "&amp;" else if c == '<' then "&lt;" else if c == '>' then "&gt;"
    else if c == '"' then "&quot;" else if c == '\'' then "&#39;" else [c]
  }

  /** Each character for its entity, in one pass. */
  function OnePass(s: string): string {
    if s == "" then "" else Entity(s[0]) + OnePass(s[1..])
  }

  lemma {:induction false} ReplacedConcat(a: string, b: string, c: char, sub: string)
    ensures Replaced(a + b, c, sub) == Replaced(a, c, sub) + Replaced(b, c, sub)
  {
    if a == "" {
      assert a + b == b;
    } else {
      var head := if a[0] == c then sub else [a[0]];
      assert (a + b)[1..] == a[1..] + b;
      ReplacedConcat(a[1..], b, c, sub);
      assert Replaced(a + b, c, sub) == head + (Replaced(a[1..], c, sub) + Replaced(b, c, sub));
    }
  }

  lemma {:induction false} ReplacedAbsent(s: string, c: char, sub: string)
    requires c !in s
    ensures Replaced(s, c, sub) == s
  {
    if s != "" { ReplacedAbsent(s[1..], c, sub); }
  }

  lemma ReplacedOne(x: char, c: char, sub: string)
    ensures Replaced([x], c, sub) == if x == c then sub else [x]
  {
    assert [x][1..] == "";
  }

  lemma EscapeConcat(a: string, b: string)
    ensures Escape(a + b) == Escape(a) + Escape(b)
  {
    var a1, b1 := Replaced(a, '&', "&amp;"), Replaced(b, '&', "&amp;");
    var a2, b2 := Replaced(a1, '<', "&lt;"), Replaced(b1, '<', "&lt;");
    var a3, b3 := Replaced(a2, '>', "&gt;"), Replaced(b2, '>', "&gt;");
    var a4, b4 := Replaced(a3, '"', "&quot;"), Replaced(b3, '"', "&quot;");
    ReplacedConcat(a, b, '&', "&amp;");
    ReplacedConcat(a1, b1, '<', "&lt;");
    ReplacedConcat(a2, b2, '>', "&gt;");
    ReplacedConcat(a3, b3, '"', "&quot;");
    ReplacedConcat(a4, b4, '\'', "&#39;");
  }

  lemma EscapeOne(c: char)
    ensures Escape([c]) == Entity(c)
  {
    hide Replaced;
    ReplacedOne(c, '&', "&amp;");
    var e1 := if c == '&' then "&amp;" else [c];
    if c == '<' { ReplacedOne(c, '<', "&lt;"); } else { ReplacedAbsent(e1, '<', "&lt;"); }
    var e2 := if c == '<' then "&lt;" else e1;
    if c == '>' { ReplacedOne(c, '>', "&gt;"); } else { ReplacedAbsent(e2, '>', "&gt;"); }
    var e3 := if c == '>' then "&gt;" else e2;
    if c == '"' { ReplacedOne(c, '"', "&quot;"); } else { ReplacedAbsent(e3, '"', "&quot;"); }
    var e4 := if c == '"' then "&quot;" else e3;
    if c == '\'' { ReplacedOne(c, '\'', "&#39;"); } else { ReplacedAbsent(e4, '\'', "&#39;"); }
  }

  /** No replacement touches what an earlier one wrote: five passes are one. */
  lemma {:induction false} EscapeIsOnePass(s: string)
    ensures Escape(s) == OnePass(s)
  {
    if s != "" {
      assert s == [s[0]] + s[1..];
      EscapeConcat([s[0]], s[1..]);
      EscapeOne(s[0]);
      EscapeIsOnePass(s[1..]);
    }
  }

  lemma EntitySafe(c: char)
    ensures forall d | d in Entity(c) :: d != '<' && d != '>' && d != '"' && d != '\''
  { }

  /** Nothing in the output can open or close a tag or an attribute. */
  lemma {:induction false} EscapeSafe(s: string)
    ensures forall c | c in Escape(s) :: c != '<' && c != '>' && c != '"' && c != '\''
  {
    hide Escape, Entity;
    EscapeIsOnePass(s);
    if s != "" {
      EscapeSafe(s[1..]);
      EscapeIsOnePass(s[1..]);
      EntitySafe(s[0]);
    }
  }

  /** Character by character, what that comes to. */
  lemma EscapeEach(c: char, rest: string)
    ensures Escape([c] + rest) == Escape([c]) + Escape(rest) && Escape("") == ""
    ensures Escape("&") == "&amp;" && Escape("<") == "&lt;" && Escape(">") == "&gt;"
    ensures Escape("\"") == "&quot;" && Escape("'") == "&#39;"
    ensures c != '&' && c != '<' && c != '>' && c != '"' && c != '\'' ==> Escape([c]) == [c]
  {
    hide Escape;
    EscapeConcat([c], rest);
    forall d ensures Escape([d]) == Entity(d) { EscapeIsOnePass([d]); }
    EscapeIsOnePass("");
    assert Escape(['&']) == "&amp;" && Escape(['<']) == "&lt;" && Escape(['>']) == "&gt;";
    assert Escape(['"']) == "&quot;" && Escape(['\'']) == "&#39;";
  }

  predicate StartsWith(s: string, p: string) {
    |p| <= |s| && s[..|p|] == p
  }

  /** Reads the five entities back. */
  function Unescape(s: string): string {
    if s == "" then ""
    else if StartsWith(s, "&amp;") then "&" + Unescape(s[5..])
    else if StartsWith(s, "&lt;") then "<" + Unescape(s[4..])
    else if StartsWith(s, "&gt;") then ">" + Unescape(s[4..])
    else if StartsWith(s, "&quot;") then "\"" + Unescape(s[6..])
    else if StartsWith(s, "&#39;") then "'" + Unescape(s[5..])
    else [s[0]] + Unescape(s[1..])
  }

  lemma Differs(s: string, p: string, k: nat)
    requires k < |p| && k < |s| && s[k] != p[k]
    ensures !StartsWith(s, p)
  {
    assert |p| <= |s| ==> s[..|p|][k] == s[k];
  }

  /** An entity is told from the ones tried before it by its second character, plain text by its first. */
  lemma {:induction false} UnescapeEntity(c: char, rest: string)
    ensures Unescape(Entity(c) + rest) == [c] + Unescape(rest)
  {
    var s, e := Entity(c) + rest, Entity(c);
    assert s[..|e|] == e && s[|e|..] == rest;
    assert StartsWith(s, e);
    assert s[0] == e[0] && (|e| > 1 ==> s[1] == e[1]);
    hide StartsWith;
    var k := if |e| > 1 then 1 else 0;
    if c != '&' { Differs(s, "&amp;", k); }
    if c != '&' && c != '<' { Differs(s, "&lt;", k); }
    if c != '&' && c != '<' && c != '>' { Differs(s, "&gt;", k); }
    if c != '&' && c != '<' && c != '>' && c != '"' { Differs(s, "&quot;", k); }
    if |e| == 1 { Differs(s, "&#39;", k); }
  }

  lemma {:induction false} UnescapeEscape(s: string)
    ensures Unescape(Escape(s)) == s
  {
    EscapeIsOnePass(s);
    if s != "" {
      UnescapeEntity(s[0], OnePass(s[1..]));
      EscapeIsOnePass(s[1..]);
      UnescapeEscape(s[1..]);
    }
  }

  /** So different texts never escape alike. */
  lemma EscapeInjective(a: string, b: string)
    requires Escape(a) == Escape(b)
    ensures a == b
  {
    UnescapeEscape(a);
    UnescapeEscape(b);
  }
}
