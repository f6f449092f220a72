/**
 File names in a Maildir: the flags live behind ":2,", and what is left of a name once flags and
 size or UID suffixes are cut off is the key a message is looked up by. Names are byte strings.
 */
module MaildirNames {
  import opened Wrappers
  import opened Text

  // ---------- Keys and flags ----------

  function CleanName(name: string): string { Before(name, ":2,") }

  function BaseKey(name: string): string { Before(Before(CleanName(name), ",U="), ":") }

  /** The name MarkMessageRead gives to a file. */
  function Flagged(name: string, read: bool): string { CleanName(name) + if read then ":2,S" else ":2," }

  lemma CutNameHasNoMarker(name: string)
    ensures forall i :: !At(CleanName(name), ":2,", i)
  {
    var clean := CleanName(name);
    IndexFromIsFirst(name, ":2,", 0);
    forall i ensures !At(clean, ":2,", i) {
      if At(clean, ":2,", i) {
        assert name[i..i + 3] == clean[i..i + 3];
        assert At(name, ":2,", i);
      }
    }
  }

  /** Putting flags behind a name without a marker does not create an earlier marker. */
  lemma MarkerAfter(clean: string, flags: string)
    requires forall i :: !At(clean, ":2,", i)
    ensures Before(clean + ":2," + flags, ":2,") == clean
  {
    var name := clean + ":2," + flags;
    assert At(name, ":2,", |clean|);
    forall i | 0 <= i < |clean| ensures !At(name, ":2,", i) {
      AtChars(name, ":2,", i);
      assert name[|clean|] == ':';
      assert At(name, ":2,", i) && i + 3 <= |clean| ==> At(clean, ":2,", i) by {
        assert i + 3 <= |clean| ==> name[i..i + 3] == clean[i..i + 3];
      }
    }
    IndexFromIsFirst(name, ":2,", 0);
  }

  /** Marking keeps the key, and the part of the name before the flags. */
  lemma FlaggingKeepsKey(name: string, read: bool)
    ensures CleanName(Flagged(name, read)) == CleanName(name)
    ensures BaseKey(Flagged(name, read)) == BaseKey(name)
  {
    CutNameHasNoMarker(name);
    var flags := if read then "S" else "";
    MarkerAfter(CleanName(name), flags);
    assert Flagged(name, read) == CleanName(name) + ":2," + flags;
  }

  /** The key is the name up to where the flags, or whatever else follows a colon, or a UID begin. */
  lemma KeyMeans(name: string)
    ensures var key := BaseKey(name);
            && key <= name && ':' !in key && !Contains(key, ",U=")
            && (key != name ==> HasPrefix(name[|key|..], ":") || HasPrefix(name[|key|..], ",U="))
  {
    var clean := CleanName(name);
    var cut := Before(clean, ",U=");
    var key := BaseKey(name);
    CutBefore(name, ":2,");
    CutBefore(clean, ",U=");
    CutBefore(cut, ":");
    ContainsChar(key, ':');
    PartLacks(cut, |key|, ",U=");
    assert key == cut[..|key|] && cut == clean[..|cut|] && clean == name[..|clean|];
    if key != cut {
      assert name[|key|] == cut[|key|] == cut[|key|..][0];
    } else if cut != clean {
      assert name[|key|..|key| + 3] == clean[|cut|..|cut| + 3] == ",U=";
    } else if clean != name {
      assert name[|key|] == name[|clean|..][0];
    }
  }

  lemma AtInPrefix(s: string, n: nat, p: string, j: int)
    requires n <= |s| && At(s[..n], p, j)
    ensures At(s, p, j)
  {
    assert s[j..j + |p|] == s[..n][j..j + |p|];
  }

  /** What is before the first `p` lacks `p`, and `p` follows. */
  lemma CutBefore(s: string, p: string)
    requires p != ""
    ensures var cut := Before(s, p); cut <= s && !Contains(cut, p) && (cut != s ==> HasPrefix(s[|cut|..], p))
  {
    var cut := Before(s, p);
    IndexFromIsFirst(s, p, 0);
    ContainsMeans(cut, p);
    forall j ensures !At(cut, p, j) {
      if At(cut, p, j) {
        AtInPrefix(s, |cut|, p, j);
      }
    }
    if cut != s {
      assert s[|cut|..|cut| + |p|] == s[|cut|..][..|p|];
    }
  }

  lemma PartLacks(s: string, n: nat, p: string)
    requires n <= |s| && !Contains(s, p)
    ensures !Contains(s[..n], p)
  {
    ContainsMeans(s, p);
    ContainsMeans(s[..n], p);
    forall j ensures !At(s[..n], p, j) {
      if At(s[..n], p, j) {
        AtInPrefix(s, n, p, j);
      }
    }
  }

  lemma KeyIsPrefix(name: string)
    ensures BaseKey(name) <= name
  {
  }

  // ---------- From a message id to a file name ----------

  /** url.PathUnescape and, with `query`, url.QueryUnescape; None is their error. */
  function Unescape(s: string, query: bool): Option<string> {
    if s == "" then Some("")
    else if s[0] == '%' then
      if |s| < 3 || !IsHex(s[1]) || !IsHex(s[2]) then None else
        match Unescape(s[3..], query)
        case None => None
        case Some(r) => Some([(16 * HexValue(s[1]) + HexValue(s[2])) as char] + r)
    else match Unescape(s[1..], query)
      case None => None
      case Some(r) => Some([if s[0] == '+' && query then ' ' else s[0]] + r)
  }

  function Decoded(id: string): string {
    var once := match Unescape(id, false) case Some(u) => u case None => id;
    match Unescape(once, true) case Some(u) => u case None => once
  }

  lemma {:induction false} UnescapePlain(s: string, query: bool)
    requires '%' !in s && '+' !in s
    ensures Unescape(s, query) == Some(s)
  {
    if s != "" {
      UnescapePlain(s[1..], query);
      assert [s[0]] + s[1..] == s;
    }
  }

  function DropSlashes(s: string): string {
    if s != "" && s[|s| - 1] == '/' then DropSlashes(s[..|s| - 1]) else s
  }

  function AfterLastSlash(s: string): string {
    if s == "" || s[|s| - 1] == '/' then "" else AfterLastSlash(s[..|s| - 1]) + [s[|s| - 1]]
  }

  /** filepath.Base. */
  function BaseName(s: string): string {
    if s == "" then "."
    else if DropSlashes(s) == "" then "/"
    else AfterLastSlash(DropSlashes(s))
  }

  lemma {:induction false} NoSlashToDrop(s: string)
    requires '/' !in s
    ensures AfterLastSlash(s) == s
  {
    if s != "" {
      NoSlashToDrop(s[..|s| - 1]);
    }
  }

  /** The file name a message id asks for. */
  function CleanId(id: string): string { BaseName(Decoded(id)) }

  /** An id that is itself a file name and contains neither '%' nor '+'. */
  predicate PlainId(id: string) { IsElement(id) && '%' !in id && '+' !in id }

  lemma PlainIdIsName(id: string)
    requires PlainId(id)
    ensures CleanId(id) == id
  {
    UnescapePlain(id, false);
    UnescapePlain(id, true);
    NoSlashToDrop(id);
  }

  // ---------- Escaped ids ----------

  function HexDigit(n: nat): (c: char)
    requires n < 16
    ensures IsHex(c) && HexValue(c) == n && c as int < 128
  {
    if n < 10 then (n + '0' as int) as char else (n - 10 + 'A' as int) as char
  }

  predicate IsBytes(s: string) { forall i :: 0 <= i < |s| ==> s[i] as int < 256 }

  /** Every byte as '%' and two hexadecimal digits. */
  function Escaped(s: string): string
    requires IsBytes(s)
  {
    if s == "" then "" else ['%', HexDigit(s[0] as int / 16), HexDigit(s[0] as int % 16)] + Escaped(s[1..])
  }

  lemma {:induction false} UnescapeEscaped(s: string, query: bool)
    requires IsBytes(s)
    ensures Unescape(Escaped(s), query) == Some(s) && IsBytes(Escaped(s))
  {
    if s != "" {
      UnescapeEscaped(s[1..], query);
      var n := s[0] as int;
      var front := ['%', HexDigit(n / 16), HexDigit(n % 16)];
      assert Escaped(s)[3..] == Escaped(s[1..]) && Escaped(s)[..3] == front;
      assert [s[0]] + s[1..] == s;
    }
  }

  /** Unescaping takes a name for an escaped one exactly when there is something to unescape in it. */
  lemma {:induction false} UnescapeChanges(s: string)
    ensures var u := Unescape(s, true);
            && (u.Some? ==> |u.value| <= |s| && (u.value == s <==> '%' !in s && '+' !in s))
            && (u.Some? && '%' !in s ==> |u.value| == |s| && forall i :: 0 <= i < |s| ==> u.value[i] == '/' ==> s[i] == '/')
            && (u.Some? && '%' in s ==> |u.value| < |s|)
  {
    if s != "" {
      if s[0] == '%' {
        if |s| >= 3 { UnescapeChanges(s[3..]); }
      } else {
        UnescapeChanges(s[1..]);
        assert s == [s[0]] + s[1..];
      }
    }
  }

  lemma {:induction false} BaseNameLength(s: string)
    ensures |BaseName(s)| <= |s| || s == ""
  {
    LastSlashLength(DropSlashes(s));
    DropSlashesLength(s);
  }

  lemma {:induction false} DropSlashesLength(s: string)
    ensures |DropSlashes(s)| <= |s|
  {
    if s != "" && s[|s| - 1] == '/' {
      DropSlashesLength(s[..|s| - 1]);
    }
  }

  lemma {:induction false} LastSlashLength(s: string)
    ensures |AfterLastSlash(s)| <= |s|
  {
    if s != "" && s[|s| - 1] != '/' {
      LastSlashLength(s[..|s| - 1]);
    }
  }

  /** Ids are unescaped twice: a file name escaped twice comes back, whatever bytes it is made of. */
  lemma EscapedTwice(name: string)
    requires IsElement(name) && IsBytes(name)
    ensures IsBytes(Escaped(name)) && CleanId(Escaped(Escaped(name))) == name
  {
    UnescapeEscaped(name, true);
    UnescapeEscaped(Escaped(name), false);
    NoSlashToDrop(name);
  }

  /** Escaped once, it comes back if and only if the second unescaping refuses it, or finds nothing in it. */
  lemma EscapedOnce(name: string)
    requires IsElement(name) && IsBytes(name)
    ensures CleanId(Escaped(name)) == name <==> Unescape(name, true) == None || ('%' !in name && '+' !in name)
  {
    UnescapeEscaped(name, false);
    UnescapeChanges(name);
    NoSlashToDrop(name);
    match Unescape(name, true) {
      case None =>
      case Some(u) =>
        if '%' in name {
          BaseNameLength(u);
        } else {
          assert '/' !in u;
          NoSlashToDrop(u);
        }
    }
  }

  /** A file answers to an id when its name starts with the id's key. */
  predicate AnswersTo(name: string, cleanId: string) { HasPrefix(name, BaseKey(cleanId)) }
}
