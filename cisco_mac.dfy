/** The Cisco-to-Unix MAC address reformatter: `hhhh.hhhh.hhhh` becomes `hh:hh:hh:hh:hh:hh`.
    The dots are deleted, the remaining characters are taken two at a time from one shared
    iterator, and the pairs are joined with ':'. */
module CiscoMac {
  import opened Strings

  /** The pairs that zipping one shared iterator with itself draws from `t` (lines 17-18):
      consecutive characters two at a time, stopping when fewer than two are left. */
  function Pairs(t: string): seq<string>
  {
    if |t| < 2 then [] else [t[..2]] + Pairs(t[2..])
  }

  /** The conversion of lines 16-18: delete every '.', pair up the remaining characters, and
      join the pairs with ':'. */
  function Convert(mac: string): string
  {
    Join(Pairs(Remove(mac, '.')), ':')
  }

  /** The pairs are the consecutive two-character slices of `t`, |t| / 2 of them; together
      they are `t` without an unpaired last character. */
  lemma {:induction false} PairsShape(t: string)
    ensures |Pairs(t)| == |t| / 2
    ensures Uniform(Pairs(t), 2)
    ensures forall i :: 0 <= i < |t| / 2 ==> Pairs(t)[i] == t[2 * i..2 * i + 2]
    ensures Concat(Pairs(t)) == t[..2 * (|t| / 2)]
  {
    if |t| >= 2 {
      var rest := t[2..];
      PairsShape(rest);
      assert Pairs(t)[1..] == Pairs(rest);
      forall i | 0 <= i < |t| / 2 ensures Pairs(t)[i] == t[2 * i..2 * i + 2] {
        if i > 0 {
          assert Pairs(t)[i] == Pairs(rest)[i - 1];
          assert rest[2 * (i - 1)..2 * (i - 1) + 2] == t[2 * i..2 * i + 2];
        }
      }
      assert t[..2 * (|t| / 2)] == t[..2] + rest[..2 * (|rest| / 2)];
    }
  }

  /** Every character of a pair is a character of `t`. */
  lemma {:induction false} PairsChars(t: string, i: nat, x: char)
    requires i < |Pairs(t)| && x in Pairs(t)[i]
    ensures x in t
  {
    if i > 0 {
      PairsChars(t[2..], i - 1, x);
    }
  }

  /** The output is the dot-stripped input cut into consecutive pairs, in order and unchanged,
      joined by ':'. For a dot-stripped length of 2k with k >= 1 it has 3k - 1 characters
      (none when fewer than two characters remain), and it holds no '.'. */
  lemma ConvertShape(mac: string)
    ensures var t := Remove(mac, '.');
      && Convert(mac) == Join(seq(|t| / 2, i requires 0 <= i < |t| / 2 => t[2 * i..2 * i + 2]), ':')
      && |Convert(mac)| == (if |t| < 2 then 0 else 3 * (|t| / 2) - 1)
      && '.' !in Convert(mac)
  {
    var t := Remove(mac, '.');
    var ps := Pairs(t);
    PairsShape(t);
    assert ps == seq(|t| / 2, i requires 0 <= i < |t| / 2 => t[2 * i..2 * i + 2]);
    JoinLength(ps, ':', 2);
    if '.' in Convert(mac) {
      JoinChars(ps, ':', '.');
      var i :| 0 <= i < |ps| && '.' in ps[i];
      PairsChars(t, i, '.');
      assert false;
    }
  }

  /** Deleting every ':' from the output gives back the dot-stripped input, without its last
      character when the count is odd, provided the input holds no ':' of its own. */
  lemma ConvertRoundTrip(mac: string)
    requires ':' !in mac
    ensures var t := Remove(mac, '.');
      && (|t| % 2 == 0 ==> Remove(Convert(mac), ':') == t)
      && (|t| % 2 == 1 ==> Remove(Convert(mac), ':') == t[..|t| - 1])
  {
    var t := Remove(mac, '.');
    var ps := Pairs(t);
    PairsShape(t);
    forall i | 0 <= i < |ps| ensures ':' !in ps[i] {
      if ':' in ps[i] {
        PairsChars(t, i, ':');
        assert false;
      }
    }
    RemoveJoin(ps, ':');
  }

  /** An unpaired last character is dropped: with an odd number of characters left after
      the dots are deleted, the output is that of the same characters without the last. */
  lemma ConvertDropsUnpaired(mac: string)
    requires |Remove(mac, '.')| % 2 == 1
    ensures var t := Remove(mac, '.');
      Convert(mac) == Convert(t[..|t| - 1])
  {
    var t := Remove(mac, '.');
    var u := t[..|t| - 1];
    assert '.' !in u;
    RemoveAbsent(u, '.');
    PairsShape(t);
    PairsShape(u);
    forall i | 0 <= i < |u| / 2 ensures Pairs(t)[i] == Pairs(u)[i] {
      assert u[2 * i..2 * i + 2] == t[2 * i..2 * i + 2];
    }
    assert Pairs(t) == Pairs(u);
  }

  /** Fewer than two characters left after the dots are deleted (an empty input, or one made
      only of dots, among them) give an empty output. */
  lemma ConvertEmpty(mac: string)
    requires |Remove(mac, '.')| < 2
    ensures Convert(mac) == []
  {
  }

  /** Deleting the dots of `x + "." + y` deletes those of each side and the one between. */
  lemma RemoveAroundDot(x: string, y: string)
    ensures Remove(x + "." + y, '.') == Remove(x, '.') + Remove(y, '.')
  {
    var dot := ".";
    assert Remove(dot, '.') == [];
    RemoveAppend(x, dot, '.');
    RemoveAppend(x + dot, y, '.');
  }

  /** Deleting the two dots between three dot-free groups leaves the groups side by side. */
  lemma DotsRemoved(a: string, b: string, c: string)
    requires '.' !in a && '.' !in b && '.' !in c
    ensures Remove(a + "." + b + "." + c, '.') == a + b + c
  {
    RemoveAbsent(a, '.');
    RemoveAbsent(b, '.');
    RemoveAbsent(c, '.');
    var ab := a + "." + b;
    RemoveAroundDot(a, b);
    RemoveAroundDot(ab, c);
  }

  /** Regrouping one separator in a concatenation. */
  lemma Regroup(x: string, s: string, y: string, z: string)
    ensures x + s + (y + s + z) == x + s + y + s + z
  {
  }

  /** Six two-character pairs joined by ':', written out. */
  lemma JoinSix(ps: seq<string>)
    requires |ps| == 6
    ensures Join(ps, ':') == ps[0] + ":" + ps[1] + ":" + ps[2] + ":" + ps[3] + ":" + ps[4] + ":" + ps[5]
  {
    var sep := ":";
    assert Join(ps[5..], ':') == ps[5];
    assert Join(ps[4..], ':') == ps[4] + sep + ps[5] by { assert ps[4..][1..] == ps[5..]; }
    assert Join(ps[3..], ':') == ps[3] + sep + Join(ps[4..], ':') by { assert ps[3..][1..] == ps[4..]; }
    assert Join(ps[2..], ':') == ps[2] + sep + Join(ps[3..], ':') by { assert ps[2..][1..] == ps[3..]; }
    assert Join(ps[1..], ':') == ps[1] + sep + Join(ps[2..], ':') by { assert ps[1..][1..] == ps[2..]; }
    Regroup(ps[0], sep, ps[1], Join(ps[2..], ':'));
    Regroup(ps[0] + sep + ps[1], sep, ps[2], Join(ps[3..], ':'));
    Regroup(ps[0] + sep + ps[1] + sep + ps[2], sep, ps[3], Join(ps[4..], ':'));
    Regroup(ps[0] + sep + ps[1] + sep + ps[2] + sep + ps[3], sep, ps[4], ps[5]);
  }

  /** The usage form: three dot-separated groups of four characters `aaaa.bbbb.cccc` become
      `aa:aa:bb:bb:cc:cc`, each group split in the middle and nothing checked about the digits. */
  lemma CiscoForm(a: string, b: string, c: string)
    requires |a| == 4 && |b| == 4 && |c| == 4
    requires '.' !in a && '.' !in b && '.' !in c
    ensures Convert(a + "." + b + "." + c)
         == a[..2] + ":" + a[2..] + ":" + b[..2] + ":" + b[2..] + ":" + c[..2] + ":" + c[2..]
  {
    DotsRemoved(a, b, c);
    var t := a + b + c;
    PairsShape(t);
    var ps := [a[..2], a[2..], b[..2], b[2..], c[..2], c[2..]];
    assert t[0..2] == a[..2] && t[2..4] == a[2..];
    assert t[4..6] == b[..2] && t[6..8] == b[2..];
    assert t[8..10] == c[..2] && t[10..12] == c[2..];
    assert Pairs(t)[0] == ps[0] && Pairs(t)[1] == ps[1] && Pairs(t)[2] == ps[2];
    assert Pairs(t)[3] == ps[3] && Pairs(t)[4] == ps[4] && Pairs(t)[5] == ps[5];
    assert Pairs(t) == ps;
    JoinSix(ps);
  }
}
