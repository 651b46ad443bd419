/**
  The repair of markdown escapes in model-written JSON, measured against two decoders:
  the strict escape grammar of section 7 of RFC 8259, and the reading of a text in which a
  backslash that starts no such escape is just a character.
 */
module JsonEscapes {
  import opened Options

  const BACKSLASH := '\\'

  predicate IsHex(c: char)
  {
    '0' <= c <= '9' || 'a' <= c <= 'f' || 'A' <= c <= 'F'
  }

  function HexValue(c: char): (v: nat)
    requires IsHex(c)
    ensures v < 16
  {
    if c <= '9' then (c - '0') as nat else if c <= 'F' then (c - 'A') as nat + 10 else (c - 'a') as nat + 10
  }

  /** `t` begins with a backslash, `u` and four hexadecimal digits. */
  predicate UnicodeEscape(t: string)
  {
    |t| >= 6 && t[0] == BACKSLASH && t[1] == 'u' && IsHex(t[2]) && IsHex(t[3]) && IsHex(t[4]) && IsHex(t[5])
  }

  const SIMPLE := {'"', '\\', '/', 'b', 'f', 'n', 'r', 't'}

  /** `t` begins with one of the two-character escapes. */
  predicate SimpleEscape(t: string)
  {
    |t| >= 2 && t[0] == BACKSLASH && t[1] in SIMPLE
  }

  const HEX_DIGITS := "0123456789abcdef"
  const UPPER_HEX_DIGITS := "0123456789ABCDEF"

  /** A hexadecimal digit is one of sixteen in either case, and its value is its place among them. */
  lemma HexDigits(c: char)
    ensures IsHex(c) <==> c in HEX_DIGITS || c in UPPER_HEX_DIGITS
    ensures IsHex(c) ==> c == HEX_DIGITS[HexValue(c)] || c == UPPER_HEX_DIGITS[HexValue(c)]
  {
    if IsHex(c) {
      var v := HexValue(c);
      assert c == HEX_DIGITS[v] || c == UPPER_HEX_DIGITS[v];
    }
  }

  /** The escapes of section 7 of RFC 8259, spelled out. */
  lemma EscapesSpelledOut(t: string)
    ensures SimpleEscape(t) <==>
            "\\\"" <= t || "\\\\" <= t || "\\/" <= t || "\\b" <= t || "\\f" <= t || "\\n" <= t || "\\r" <= t
              || "\\t" <= t
    ensures UnicodeEscape(t) <==> |t| >= 6 && "\\u" <= t && forall i :: 2 <= i < 6 ==> IsHex(t[i])
  {
    if |t| >= 2 {
      assert t[..2] == [t[0], t[1]];
    }
  }

  // ---------------------------------------------------------------------------
  // The repair
  // ---------------------------------------------------------------------------

  /** Length of the match of any backslash sequence at the front; zero if there is none. */
  function AnyEscape(t: string): (n: nat)
    ensures n <= |t|
  {
    if t == "" || t[0] != BACKSLASH then 0
    else if UnicodeEscape(t) then 6
    else if |t| >= 2 then 2
    else 0
  }

  /** The whole token is an escape of the grammar. */
  predicate ValidEscape(token: string)
  {
    (|token| == 6 && UnicodeEscape(token)) || (|token| == 2 && SimpleEscape(token))
  }

  /** The replacement of one matched token. */
  function RepairToken(token: string): string
  {
    if ValidEscape(token) then token else [BACKSLASH] + token
  }

  /** Leftmost substitution of every match, as a regular-expression `sub` performs it. */
  function Repair(t: string): string
  {
    if t == "" then ""
    else
      var n := AnyEscape(t);
      if n == 0 then [t[0]] + Repair(t[1..])
      else RepairToken(t[..n]) + Repair(t[n..])
  }

  // ---------------------------------------------------------------------------
  // Decoding
  // ---------------------------------------------------------------------------

  /** A decoded character; code units stay marked so that pairing surrogates is left to a later step. */
  datatype Unit = Plain(c: char) | CodeUnit(v: nat)

  function SimpleMeaning(c: char): char
  {
    match c
    case 'b' => 8 as char
    case 'f' => 12 as char
    case 'n' => '\n'
    case 'r' => '\r'
    case 't' => '\t'
    case _ => c
  }

  /** The unit an escape at the front stands for, and its length. */
  function EscapeUnit(t: string): (r: (Unit, nat))
    requires UnicodeEscape(t) || SimpleEscape(t)
    ensures 2 <= r.1 <= |t|
  {
    if UnicodeEscape(t) then
      (CodeUnit(((HexValue(t[2]) * 16 + HexValue(t[3])) * 16 + HexValue(t[4])) * 16 + HexValue(t[5])), 6)
    else
      (Plain(SimpleMeaning(t[1])), 2)
  }

  /** Fails at the first backslash that starts no escape of the grammar. */
  function StrictDecode(t: string): Option<seq<Unit>>
  {
    if t == "" then Some([])
    else if UnicodeEscape(t) || SimpleEscape(t) then
      var (u, n) := EscapeUnit(t);
      var rest := StrictDecode(t[n..]);
      if rest.None? then None else Some([u] + rest.value)
    else if t[0] == BACKSLASH then None
    else
      var rest := StrictDecode(t[1..]);
      if rest.None? then None else Some([Plain(t[0])] + rest.value)
  }

  /** Reads a backslash that starts no escape as itself. */
  function LenientDecode(t: string): seq<Unit>
  {
    if t == "" then []
    else if UnicodeEscape(t) || SimpleEscape(t) then
      var (u, n) := EscapeUnit(t);
      [u] + LenientDecode(t[n..])
    else [Plain(t[0])] + LenientDecode(t[1..])
  }

  /** How many backslashes the text ends with. */
  function TrailingBackslashes(t: string): nat
  {
    if t == "" || t[|t| - 1] != BACKSLASH then 0 else 1 + TrailingBackslashes(t[..|t| - 1])
  }

  /** The text ends in a backslash that nothing follows and nothing escapes. */
  predicate LoneFinal(t: string)
  {
    TrailingBackslashes(t) % 2 == 1
  }

  // ---------------------------------------------------------------------------
  // Proofs
  // ---------------------------------------------------------------------------

  lemma {:induction false} TrailingSuffix(a: string, b: string)
    requires b != "" && (a == "" || a[|a| - 1] != BACKSLASH || TrailingBackslashes(b) < |b|)
    ensures TrailingBackslashes(a + b) == TrailingBackslashes(b)
  {
    var t := a + b;
    assert t[|t| - 1] == b[|b| - 1];
    if b[|b| - 1] == BACKSLASH {
      assert t[..|t| - 1] == a + b[..|b| - 1];
      if |b| == 1 {
        assert a + b[..0] == a;
      } else {
        TrailingSuffix(a, b[..|b| - 1]);
      }
    }
  }

  lemma {:induction false} AllBackslashes(t: string)
    ensures TrailingBackslashes(t) <= |t|
    ensures TrailingBackslashes(t) == |t| ==> forall i :: 0 <= i < |t| ==> t[i] == BACKSLASH
  {
    if t != "" && t[|t| - 1] == BACKSLASH {
      AllBackslashes(t[..|t| - 1]);
      assert forall i :: 0 <= i < |t| - 1 ==> t[i] == t[..|t| - 1][i];
    }
  }

  lemma {:induction false} TrailingPair(b: string)
    ensures TrailingBackslashes([BACKSLASH, BACKSLASH] + b) % 2 == TrailingBackslashes(b) % 2
  {
    var t := [BACKSLASH, BACKSLASH] + b;
    if b == "" {
      assert t[..1] == [BACKSLASH] && t[..1][..0] == "";
    } else if b[|b| - 1] == BACKSLASH {
      assert t[..|t| - 1] == [BACKSLASH, BACKSLASH] + b[..|b| - 1];
      TrailingPair(b[..|b| - 1]);
    }
  }

  lemma LastNotBackslash(a: string, b: string)
    requires a != "" && a[|a| - 1] != BACKSLASH
    ensures LoneFinal(a + b) == LoneFinal(b)
  {
    if b == "" {
      assert a + b == a;
    } else {
      TrailingSuffix(a, b);
    }
  }

  /** Dropping a leading escape does not change whether the text ends in a lone backslash. */
  lemma LoneAfter(t: string, n: nat)
    requires n <= |t| && n > 0
    requires t[n - 1] != BACKSLASH || (n == 2 && t[0] == BACKSLASH)
    ensures LoneFinal(t) == LoneFinal(t[n..])
  {
    assert t == t[..n] + t[n..];
    if t[n - 1] != BACKSLASH {
      LastNotBackslash(t[..n], t[n..]);
    } else {
      assert t[..n] == [BACKSLASH, BACKSLASH];
      TrailingPair(t[n..]);
    }
  }

  lemma LoneSingle()
    ensures LoneFinal([BACKSLASH])
  {
    assert [BACKSLASH][..0] == "";
  }

  lemma SplitFront(a: string, b: string, n: nat)
    requires n == |a|
    ensures (a + b)[n..] == b && (a + b)[..n] == a
  {
  }

  /** An invalid token has two characters, and the second is no backslash. */
  lemma InvalidToken(t: string)
    requires AnyEscape(t) > 0 && !ValidEscape(t[..AnyEscape(t)])
    ensures AnyEscape(t) == 2 && t[1] != BACKSLASH && !SimpleEscape(t) && !UnicodeEscape(t)
    ensures RepairToken(t[..2]) == [BACKSLASH, BACKSLASH, t[1]]
  {
    var n := AnyEscape(t);
    assert t[..n][0] == t[0] && t[..n][1] == t[1];
    assert n == 6 ==> UnicodeEscape(t[..6]);
    assert [BACKSLASH] + t[..2] == [BACKSLASH, BACKSLASH, t[1]];
  }

  /** Both decoders read a doubled backslash as one character, whatever follows. */
  lemma DoubledDecodes(c: char, rest: string)
    requires c != BACKSLASH
    ensures var out := [BACKSLASH, BACKSLASH, c] + rest;
            && LenientDecode(out) == [Plain(BACKSLASH), Plain(c)] + LenientDecode(rest)
            && StrictDecode(out)
                 == if StrictDecode(rest).None? then None
                 else Some([Plain(BACKSLASH), Plain(c)] + StrictDecode(rest).value)
  {
    var out := [BACKSLASH, BACKSLASH, c] + rest;
    var tail := [c] + rest;
    hide LenientDecode, StrictDecode;
    assert out == [BACKSLASH, BACKSLASH] + tail;
    PlainDecodes(c, rest);
    BackslashDecodes(tail);
    assert StrictDecode(rest).Some? ==>
        [Plain(BACKSLASH)] + ([Plain(c)] + StrictDecode(rest).value)
          == [Plain(BACKSLASH), Plain(c)] + StrictDecode(rest).value;
  }

  lemma PlainDecodes(c: char, rest: string)
    requires c != BACKSLASH
    ensures LenientDecode([c] + rest) == [Plain(c)] + LenientDecode(rest)
    ensures StrictDecode([c] + rest)
            == if StrictDecode(rest).None? then None else Some([Plain(c)] + StrictDecode(rest).value)
  {
    assert ([c] + rest)[1..] == rest;
  }

  lemma BackslashDecodes(tail: string)
    ensures var out := [BACKSLASH, BACKSLASH] + tail;
            && LenientDecode(out) == [Plain(BACKSLASH)] + LenientDecode(tail)
            && StrictDecode(out)
                 == if StrictDecode(tail).None? then None else Some([Plain(BACKSLASH)] + StrictDecode(tail).value)
  {
    var out := [BACKSLASH, BACKSLASH] + tail;
    assert out[2..] == tail && EscapeUnit(out) == (Plain(BACKSLASH), 2);
  }

  /** An escape at the front decodes alike wherever it is put. */
  lemma EscapeDecodes(t: string, rest: string)
    requires AnyEscape(t) > 0 && ValidEscape(t[..AnyEscape(t)])
    ensures var n := AnyEscape(t);
            var out := t[..n] + rest;
            && (UnicodeEscape(t) || SimpleEscape(t)) && EscapeUnit(t).1 == n
            && LenientDecode(out) == [EscapeUnit(t).0] + LenientDecode(rest)
            && StrictDecode(out)
                 == if StrictDecode(rest).None? then None else Some([EscapeUnit(t).0] + StrictDecode(rest).value)
  {
    var n := AnyEscape(t);
    var out := t[..n] + rest;
    assert out[n..] == rest;
    assert EscapeUnit(out) == EscapeUnit(t) && EscapeUnit(t).1 == n;
  }

  lemma TokenLenient(t: string)
    requires AnyEscape(t) > 0
    ensures var n := AnyEscape(t);
            LenientDecode(t) == if ValidEscape(t[..n]) then [EscapeUnit(t).0] + LenientDecode(t[n..])
                                else [Plain(BACKSLASH), Plain(t[1])] + LenientDecode(t[2..])
  {
    var n := AnyEscape(t);
    if !ValidEscape(t[..n]) {
      assert t[1..][0] == t[1] && t[1] != BACKSLASH && t[1..][1..] == t[2..];
    }
  }

  /**
    The repaired text decodes strictly to what the text means, character for character,
    and it decodes at all iff the text does not end in a lone backslash.
   */
  lemma {:induction false} RepairDecodes(t: string)
    ensures StrictDecode(Repair(t)) == if LoneFinal(t) then None else Some(LenientDecode(t))
  {
    if t == "" {
    } else {
      var n := AnyEscape(t);
      if n == 0 {
        var out := [t[0]] + Repair(t[1..]);
        assert out[1..] == Repair(t[1..]);
        if t[0] == BACKSLASH {
          assert t == [BACKSLASH] && t[1..] == "";
          LoneSingle();
        } else {
          RepairDecodes(t[1..]);
          LoneAfter(t, 1);
        }
      } else {
        var rest := Repair(t[n..]);
        RepairDecodes(t[n..]);
        TokenLenient(t);
        if ValidEscape(t[..n]) {
          EscapeDecodes(t, rest);
          assert UnicodeEscape(t) ==> t[5] != BACKSLASH;
        } else {
          InvalidToken(t);
          DoubledDecodes(t[1], rest);
        }
        LoneAfter(t, n);
      }
    }
  }

  /** The repair never changes what a text means, lone final backslash or not. */
  lemma {:induction false} RepairPreservesMeaning(t: string)
    ensures LenientDecode(Repair(t)) == LenientDecode(t)
  {
    if t != "" {
      var n := AnyEscape(t);
      if n == 0 {
        var out := [t[0]] + Repair(t[1..]);
        assert out[1..] == Repair(t[1..]);
        RepairPreservesMeaning(t[1..]);
        if t[0] == BACKSLASH {
          assert t[1..] == "";
        }
      } else {
        RepairPreservesMeaning(t[n..]);
        TokenLenient(t);
        var rest := Repair(t[n..]);
        if ValidEscape(t[..n]) {
          EscapeDecodes(t, rest);
        } else {
          InvalidToken(t);
          DoubledDecodes(t[1], rest);
        }
      }
    }
  }

  /** Every backslash starts an escape, except possibly one at the very end. */
  predicate WellEscaped(t: string)
  {
    if t == "" then true
    else if UnicodeEscape(t) || SimpleEscape(t) then WellEscaped(t[EscapeUnit(t).1..])
    else if t[0] == BACKSLASH then |t| == 1
    else WellEscaped(t[1..])
  }

  lemma {:induction false} RepairIsWellEscaped(t: string)
    ensures WellEscaped(Repair(t))
  {
    if t != "" {
      var n := AnyEscape(t);
      if n == 0 {
        RepairIsWellEscaped(t[1..]);
        assert ([t[0]] + Repair(t[1..]))[1..] == Repair(t[1..]);
        if t[0] == BACKSLASH {
          assert t[1..] == "";
        }
      } else {
        RepairIsWellEscaped(t[n..]);
        var rest := Repair(t[n..]);
        if ValidEscape(t[..n]) {
          assert (t[..n] + rest)[n..] == rest;
        } else {
          assert [BACKSLASH] + t[..n] + rest == [BACKSLASH, BACKSLASH, t[1]] + rest;
          DoubledWellEscaped(t[1], rest);
        }
      }
    }
  }

  lemma DoubledWellEscaped(c: char, rest: string)
    requires c != BACKSLASH && WellEscaped(rest)
    ensures WellEscaped([BACKSLASH, BACKSLASH, c] + rest)
  {
    var out := [BACKSLASH, BACKSLASH, c] + rest;
    var tail := [c] + rest;
    assert out[2..] == tail && tail[1..] == rest;
    assert WellEscaped(tail);
  }

  /** A text is left as it is exactly when there was nothing to repair. */
  lemma {:induction false} UnchangedIffWellEscaped(t: string)
    ensures Repair(t) == t <==> WellEscaped(t)
  {
    if t != "" {
      var n := AnyEscape(t);
      if n == 0 {
        UnchangedIffWellEscaped(t[1..]);
        assert t == [t[0]] + t[1..];
        assert ([t[0]] + Repair(t[1..]))[1..] == Repair(t[1..]);
        if t[0] == BACKSLASH {
          assert t[1..] == "";
        }
      } else {
        UnchangedIffWellEscaped(t[n..]);
        assert t == t[..n] + t[n..];
        if ValidEscape(t[..n]) {
          SplitFront(t[..n], Repair(t[n..]), n);
        } else {
          assert Repair(t)[1] == BACKSLASH != t[1];
        }
      }
    }
  }

  lemma {:induction false} StrictIffWellEscaped(t: string)
    ensures StrictDecode(t).Some? <==> WellEscaped(t) && !LoneFinal(t)
  {
    if t == "" {
    } else if UnicodeEscape(t) || SimpleEscape(t) {
      var n := EscapeUnit(t).1;
      StrictIffWellEscaped(t[n..]);
      LoneAfter(t, n);
    } else if t[0] == BACKSLASH {
      if |t| == 1 {
        assert t == [BACKSLASH];
        LoneSingle();
      }
    } else {
      StrictIffWellEscaped(t[1..]);
      LoneAfter(t, 1);
    }
  }

  /** Already decodable text is unchanged, and repairing twice is repairing once. */
  lemma RepairIsAProjection(t: string)
    ensures Repair(Repair(t)) == Repair(t)
    ensures StrictDecode(t).Some? ==> Repair(t) == t
  {
    RepairIsWellEscaped(t);
    UnchangedIffWellEscaped(Repair(t));
    UnchangedIffWellEscaped(t);
    StrictIffWellEscaped(t);
  }
}
