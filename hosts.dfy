/** The `allowed_hosts` property of AppSettings (config/settings_env.py):
    a comma-separated setting turned into a list of host names. */
module Hosts {

  /** The characters Python's `str.strip()` removes (`str.isspace`). */
  predicate IsSpace(c: char) {
    c == ' ' || ('\t' <= c <= '\r') || ('\U{1C}' <= c <= '\U{1F}')
    || c == '\U{85}' || c == '\U{A0}' || c == '\U{1680}'
    || ('\U{2000}' <= c <= '\U{200A}') || c == '\U{2028}' || c == '\U{2029}'
    || c == '\U{202F}' || c == '\U{205F}' || c == '\U{3000}'
  }

  predicate AllSpace(s: string) {
    forall i :: 0 <= i < |s| ==> IsSpace(s[i])
  }

  function TrimLeft(s: string): (r: string)
    ensures r == [] || !IsSpace(r[0])
  {
    if s != [] && IsSpace(s[0]) then TrimLeft(s[1..]) else s
  }

  function TrimRight(s: string): (r: string)
    ensures r == [] || (|s| > 0 && r[0] == s[0] && !IsSpace(r[|r| - 1]))
  {
    if s != [] && IsSpace(s[|s| - 1]) then TrimRight(s[..|s| - 1]) else s
  }

  /** TrimLeft removes a blank prefix. */
  lemma {:induction false} TrimLeftSlice(s: string)
    ensures |TrimLeft(s)| <= |s| && TrimLeft(s) == s[|s| - |TrimLeft(s)|..]
    ensures AllSpace(s[..|s| - |TrimLeft(s)|])
  {
    if s != [] && IsSpace(s[0]) {
      TrimLeftSlice(s[1..]);
      assert s[1..][..|s| - 1 - |TrimLeft(s)|] == s[1..|s| - |TrimLeft(s)|];
    }
  }

  /** TrimRight removes a blank suffix. */
  lemma {:induction false} TrimRightSlice(s: string)
    ensures TrimRight(s) <= s
    ensures AllSpace(s[|TrimRight(s)|..])
  {
    if s != [] && IsSpace(s[|s| - 1]) {
      TrimRightSlice(s[..|s| - 1]);
    }
  }

  /** `str.strip()`: leading and trailing whitespace removed. */
  function Strip(s: string): (r: string)
    ensures r == [] || (!IsSpace(r[0]) && !IsSpace(r[|r| - 1]))
  {
    TrimRight(TrimLeft(s))
  }

  /** Strip removes nothing but whitespace from the two ends, so it never
      introduces a character, and it empties exactly the blank strings. */
  lemma {:induction false} StripIsSlice(s: string)
    ensures forall c :: c in Strip(s) ==> c in s
    ensures Strip(s) == [] <==> AllSpace(s)
  {
    StripKeepsChars(s);
    StripEmptyIffBlank(s);
  }

  /** Every character of the stripped string is one of the input's. */
  lemma {:induction false} StripKeepsChars(s: string)
    ensures forall c :: c in Strip(s) ==> c in s
  {
    var l := TrimLeft(s);
    TrimLeftSlice(s);
    TrimRightSlice(l);
    assert Strip(s) <= l;
    forall c | c in Strip(s)
      ensures c in s
    {
      assert c in l;
      var i :| 0 <= i < |l| && l[i] == c;
      assert l[i] == s[|s| - |l| + i];
    }
  }

  /** Strip gives "" exactly for blank strings. */
  lemma {:induction false} StripEmptyIffBlank(s: string)
    ensures Strip(s) == [] <==> AllSpace(s)
  {
    var l := TrimLeft(s);
    TrimLeftSlice(s);
    TrimRightSlice(l);
    var k := |s| - |l|;
    if Strip(s) == [] {
      assert AllSpace(l);
      assert l == [];
      assert s[..k] == s;
    } else {
      assert l != [] && !IsSpace(l[0]);
      assert l[0] == s[k];
    }
  }

  /** `s.split(sep)`: the pieces between separators, always at least one. */
  function Split(s: string, sep: char): (r: seq<string>)
    ensures |r| >= 1
    ensures forall i :: 0 <= i < |r| ==> sep !in r[i]
  {
    if s == [] then [[]]
    else
      var rest := Split(s[1..], sep);
      if s[0] == sep then [[]] + rest
      else [[s[0]] + rest[0]] + rest[1..]
  }

  /** `sep.join(pieces)`, the inverse of Split. */
  function Join(pieces: seq<string>, sep: char): string
    requires |pieces| >= 1
  {
    if |pieces| == 1 then pieces[0] else pieces[0] + [sep] + Join(pieces[1..], sep)
  }

  /** Splitting then joining on the same separator gives back the input. */
  lemma {:induction false} JoinSplit(s: string, sep: char)
    ensures Join(Split(s, sep), sep) == s
  {
    if s != [] {
      var rest := Split(s[1..], sep);
      JoinSplit(s[1..], sep);
      if s[0] == sep {
        assert Split(s, sep)[1..] == rest;
      } else {
        var r := Split(s, sep);
        if |rest| == 1 {
          assert r == [[s[0]] + rest[0]];
        } else {
          assert r[1..] == rest[1..];
          assert Join(r, sep) == [s[0]] + rest[0] + [sep] + Join(rest[1..], sep);
        }
      }
    }
  }

  /** A non-empty string with no whitespace at either end. */
  predicate IsStrippedHost(h: string) {
    h != [] && !IsSpace(h[0]) && !IsSpace(h[|h| - 1])
  }

  /** The list comprehension `[h.strip() for h in pieces if h.strip()]`. */
  function Kept(pieces: seq<string>): (r: seq<string>)
    ensures forall i :: 0 <= i < |r| ==> IsStrippedHost(r[i])
  {
    if pieces == [] then []
    else
      var h := Strip(pieces[0]);
      if h != [] then [h] + Kept(pieces[1..]) else Kept(pieces[1..])
  }

  /** `AppSettings.allowed_hosts`. */
  function AllowedHosts(raw: string): (hosts: seq<string>)
    ensures forall i :: 0 <= i < |hosts| ==> IsStrippedHost(hosts[i])
  {
    var stripped := Strip(raw);
    if stripped == [] then [] else Kept(Split(stripped, ','))
  }

  /** An empty or whitespace-only setting yields no hosts. */
  lemma {:induction false} BlankGivesNoHosts(raw: string)
    requires AllSpace(raw)
    ensures AllowedHosts(raw) == []
  {
    StripIsSlice(raw);
  }

  /** No returned host contains the separator. */
  lemma {:induction false} HostsHaveNoComma(raw: string)
    ensures forall i :: 0 <= i < |AllowedHosts(raw)| ==> ',' !in AllowedHosts(raw)[i]
  {
    var stripped := Strip(raw);
    if stripped != [] {
      KeptHasNoSep(Split(stripped, ','), ',');
    }
  }

  lemma {:induction false} KeptHasNoSep(pieces: seq<string>, sep: char)
    requires forall i :: 0 <= i < |pieces| ==> sep !in pieces[i]
    ensures forall i :: 0 <= i < |Kept(pieces)| ==> sep !in Kept(pieces)[i]
  {
    if pieces != [] {
      KeptHasNoSep(pieces[1..], sep);
      var h := Strip(pieces[0]);
      StripIsSlice(pieces[0]);
      assert sep !in h;
      assert Kept(pieces) == (if h != [] then [h] else []) + Kept(pieces[1..]);
    }
  }

  lemma {:induction false} KeptAppend(a: seq<string>, b: seq<string>)
    ensures Kept(a + b) == Kept(a) + Kept(b)
  {
    if a == [] {
      assert a + b == b;
    } else {
      assert (a + b)[1..] == a[1..] + b;
      KeptAppend(a[1..], b);
    }
  }

  lemma {:induction false} SeparatorFreeSplit(s: string, sep: char)
    requires sep !in s
    ensures Split(s, sep) == [s]
  {
    if s != [] {
      assert sep !in s[1..];
      SeparatorFreeSplit(s[1..], sep);
      assert [s[0]] + s[1..] == s;
    }
  }

  /** Text without a separator in front of `s` joins its first piece. */
  lemma {:induction false} SplitPrepend(w: string, s: string, sep: char)
    requires sep !in w
    ensures Split(w + s, sep) == [w + Split(s, sep)[0]] + Split(s, sep)[1..]
  {
    if w != [] {
      assert (w + s)[1..] == w[1..] + s;
      assert sep !in w[1..];
      SplitPrepend(w[1..], s, sep);
      assert [w[0]] + (w[1..] + Split(s, sep)[0]) == w + Split(s, sep)[0];
    } else {
      var t := Split(s, sep);
      assert w + s == s && w + t[0] == t[0];
      assert t == [t[0]] + t[1..];
    }
  }

  /** The list step behind SplitAppend: extending the first piece of
      `t` and then the last one, or the other way round, agree. */
  lemma {:induction false} ExtendFirstThenLast(c: char, t: seq<string>, w: string)
    requires |t| >= 1
    ensures var rest := t[..|t| - 1] + [t[|t| - 1] + w];
      var u := [[c] + t[0]] + t[1..];
      [[c] + rest[0]] + rest[1..] == u[..|u| - 1] + [u[|u| - 1] + w]
  {
    var rest := t[..|t| - 1] + [t[|t| - 1] + w];
    var u := [[c] + t[0]] + t[1..];
    if |t| == 1 {
      assert rest == [t[0] + w];
      assert [c] + (t[0] + w) == ([c] + t[0]) + w;
    } else {
      assert rest[0] == t[0] && rest[1..] == t[1..|t| - 1] + [t[|t| - 1] + w];
      assert u[..|u| - 1] == [[c] + t[0]] + t[1..|t| - 1];
    }
  }

  /** Text without a separator after `s` joins its last piece. */
  lemma {:induction false} SplitAppend(s: string, w: string, sep: char)
    requires sep !in w
    ensures var t := Split(s, sep);
      Split(s + w, sep) == t[..|t| - 1] + [t[|t| - 1] + w]
  {
    if s == [] {
      assert s + w == w;
      SeparatorFreeSplit(w, sep);
    } else {
      assert (s + w)[1..] == s[1..] + w;
      SplitAppend(s[1..], w, sep);
      var t' := Split(s[1..], sep);
      if s[0] == sep {
        var t := [[]] + t';
        assert t[..|t| - 1] == [[]] + t'[..|t'| - 1];
      } else {
        ExtendFirstThenLast(s[0], t', w);
      }
    }
  }

  lemma {:induction false} TrimLeftSpaces(w: string, p: string)
    requires AllSpace(w)
    ensures TrimLeft(w + p) == TrimLeft(p)
  {
    if w != [] {
      assert (w + p)[1..] == w[1..] + p;
      TrimLeftSpaces(w[1..], p);
    } else {
      assert w + p == p;
    }
  }

  lemma {:induction false} TrimRightSpaces(p: string, w: string)
    requires AllSpace(w)
    ensures TrimRight(p + w) == TrimRight(p)
  {
    if w != [] {
      assert (p + w)[..|p + w| - 1] == p + w[..|w| - 1];
      TrimRightSpaces(p, w[..|w| - 1]);
    } else {
      assert p + w == p;
    }
  }

  lemma {:induction false} TrimLeftAppend(p: string, w: string)
    requires AllSpace(w)
    ensures TrimLeft(p) != [] ==> TrimLeft(p + w) == TrimLeft(p) + w
    ensures TrimLeft(p) == [] ==> TrimLeft(p + w) == []
  {
    if p == [] {
      assert p + w == w;
      TrimLeftSpaces(w, []);
      assert w + [] == w;
    } else {
      assert (p + w)[1..] == p[1..] + w;
      if IsSpace(p[0]) {
        TrimLeftAppend(p[1..], w);
      }
    }
  }

  lemma {:induction false} StripPrependSpaces(w: string, p: string)
    requires AllSpace(w)
    ensures Strip(w + p) == Strip(p)
  {
    TrimLeftSpaces(w, p);
  }

  lemma {:induction false} StripAppendSpaces(p: string, w: string)
    requires AllSpace(w)
    ensures Strip(p + w) == Strip(p)
  {
    TrimLeftAppend(p, w);
    if TrimLeft(p) != [] {
      TrimRightSpaces(TrimLeft(p), w);
    }
  }

  lemma {:induction false} SpacesHaveNoComma(w: string)
    requires AllSpace(w)
    ensures ',' !in w
  {
  }

  lemma {:induction false} KeptSplitIgnoresLeadingSpaces(w: string, s: string)
    requires AllSpace(w)
    ensures Kept(Split(w + s, ',')) == Kept(Split(s, ','))
  {
    SpacesHaveNoComma(w);
    var t := Split(s, ',');
    SplitPrepend(w, s, ',');
    StripPrependSpaces(w, t[0]);
    assert t == [t[0]] + t[1..];
  }

  lemma {:induction false} KeptOne(x: string)
    ensures Kept([x]) == if Strip(x) == [] then [] else [Strip(x)]
  {
    assert [x][1..] == [];
  }

  /** Changing the last piece to one that strips alike keeps the hosts. */
  lemma {:induction false} KeptLastReplaced(init: seq<string>, x: string, y: string)
    requires Strip(x) == Strip(y)
    ensures Kept(init + [x]) == Kept(init + [y])
  {
    KeptAppend(init, [x]);
    KeptAppend(init, [y]);
    KeptOne(x);
    KeptOne(y);
  }

  lemma {:induction false} KeptSplitIgnoresTrailingSpaces(s: string, w: string)
    requires AllSpace(w)
    ensures Kept(Split(s + w, ',')) == Kept(Split(s, ','))
  {
    SpacesHaveNoComma(w);
    var t := Split(s, ',');
    var init := t[..|t| - 1];
    var last := t[|t| - 1];
    calc {
      Kept(Split(s + w, ','));
      { SplitAppend(s, w, ','); }
      Kept(init + [last + w]);
      { StripAppendSpaces(last, w); KeptLastReplaced(init, last + w, last); }
      Kept(init + [last]);
      { assert init + [last] == t; }
      Kept(t);
    }
  }

  /** The hosts are the stripped, non-empty pieces of the RAW setting split
      on ",", in order: stripping the whole value first changes nothing, and
      the early return for a blank value agrees with the comprehension. */
  lemma {:induction false} HostsAreStrippedPieces(raw: string)
    ensures AllowedHosts(raw) == Kept(Split(raw, ','))
  {
    var l := TrimLeft(raw);
    var m := TrimRight(l);
    KeptIgnoresTrimLeft(raw);
    KeptIgnoresTrimRight(l);
    if m == [] {
      BlankPieces();
    }
  }

  lemma {:induction false} KeptIgnoresTrimLeft(raw: string)
    ensures Kept(Split(raw, ',')) == Kept(Split(TrimLeft(raw), ','))
  {
    var l := TrimLeft(raw);
    TrimLeftSlice(raw);
    var lead := raw[..|raw| - |l|];
    assert raw == lead + l;
    KeptSplitIgnoresLeadingSpaces(lead, l);
  }

  lemma {:induction false} KeptIgnoresTrimRight(l: string)
    ensures Kept(Split(l, ',')) == Kept(Split(TrimRight(l), ','))
  {
    var m := TrimRight(l);
    TrimRightSlice(l);
    var trail := l[|m|..];
    assert l == m + trail;
    KeptSplitIgnoresTrailingSpaces(m, trail);
  }

  /** The empty string splits into one empty piece, which is dropped. */
  lemma {:induction false} BlankPieces()
    ensures Kept(Split([], ',')) == []
  {
    assert Split([], ',') == [[]];
    assert Strip([]) == [];
  }

  /** The early return at a blank setting and the comprehension agree. */
  lemma {:induction false} BlankAgreesWithComprehension(raw: string)
    requires AllSpace(raw)
    ensures Kept(Split(Strip(raw), ',')) == []
  {
    StripIsSlice(raw);
    var e := Strip(raw);
    assert Split(e, ',') == [[]];
    assert Strip([]) == [];
    assert Kept([[]]) == Kept([]);
  }

  /** The pieces of a setting with an empty entry. */
  lemma {:induction false} ExampleSplit()
    ensures Split("a, ,b", ',') == ["a", " ", "b"]
  {
    SeparatorFreeSplit("b", ',');
    assert ",b"[1..] == "b";
    assert Split(",b", ',') == ["", "b"];
    assert " ,b"[1..] == ",b";
    assert [' '] + "" == " " && ["", "b"][1..] == ["b"];
    assert Split(" ,b", ',') == [" ", "b"];
    assert ", ,b"[1..] == " ,b";
    assert Split(", ,b", ',') == ["", " ", "b"];
    assert "a, ,b"[1..] == ", ,b";
    assert ['a'] + "" == "a" && ["", " ", "b"][1..] == [" ", "b"];
  }

  /** The blank piece is dropped, the others kept. */
  lemma {:induction false} ExampleKept()
    ensures Kept(["a", " ", "b"]) == ["a", "b"]
  {
    assert Strip("a") == "a";
    assert Strip(" ") == "";
    assert Strip("b") == "b";
    assert ["a", " ", "b"][1..] == [" ", "b"] && [" ", "b"][1..] == ["b"] && ["b"][1..] == [];
  }

  /** A setting with blanks around the names and an empty entry. */
  lemma {:induction false} ExampleHosts()
    ensures AllowedHosts(" a, ,b ") == ["a", "b"]
  {
    assert TrimLeft(" a, ,b ") == "a, ,b ";
    assert TrimRight("a, ,b ") == "a, ,b";
    assert Strip(" a, ,b ") == "a, ,b";
    ExampleSplit();
    ExampleKept();
  }
}
