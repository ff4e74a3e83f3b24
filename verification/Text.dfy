/** Names as their users write them: blanks around them and the case of their letters do not count. */
module Text {
  /** White space, as far as trimming goes. */
  predicate IsBlank(c: char) {
    || '\t' <= c <= '\r' || '\U{1c}' <= c <= ' ' || c == '\U{85}' || c == '\U{a0}' || c == '\U{1680}'
    || '\U{2000}' <= c <= '\U{200a}' || c == '\U{2028}' || c == '\U{2029}' || c == '\U{202f}' || c == '\U{205f}'
    || c == '\U{3000}'
  }

  predicate AllBlank(text: string) {
    forall i | 0 <= i < |text| :: IsBlank(text[i])
  }

  /** No blank at either end. */
  predicate Trimmed(text: string) {
    text == "" || (!IsBlank(text[0]) && !IsBlank(text[|text| - 1]))
  }

  /** Blanks at both ends taken off. */
  function Strip(text: string): string
    decreases |text|
  {
    if text == "" then ""
    else if IsBlank(text[0]) then Strip(text[1..])
    else if IsBlank(text[|text| - 1]) then Strip(text[..|text| - 1])
    else text
  }

  function LowerChar(c: char): char {
    if 'A' <= c <= 'Z' then c - 'A' + 'a' else c
  }

  function Lower(text: string): (r: string)
    ensures |r| == |text| && forall i | 0 <= i < |text| :: r[i] == LowerChar(text[i])
  {
    seq(|text|, i requires 0 <= i < |text| => LowerChar(text[i]))
  }

  function Key(text: string): string {
    Lower(Strip(text))
  }

  /** The default stands for a missing name only, and before the name is trimmed. */
  function KeyOrElse(text: string, default: string): string {
    Key(if text == "" then default else text)
  }

  lemma {:induction false} StripPadded(pre: string, text: string, post: string)
    requires AllBlank(pre) && AllBlank(post) && Trimmed(text)
    ensures Strip(pre + text + post) == text
    decreases |pre| + |post|
  {
    var all := pre + text + post;
    if pre != "" {
      assert all[0] == pre[0] && all[1..] == pre[1..] + text + post;
      StripPadded(pre[1..], text, post);
    } else if post != "" {
      var n := |post| - 1;
      assert all[|all| - 1] == post[n] && all[..|all| - 1] == pre + text + post[..n];
      StripPadded(pre, text, post[..n]);
      if text == "" {
        StripBlank(all);
      }
    } else {
      assert all == text;
    }
  }

  /** Trimming leaves nothing exactly of blanks. */
  lemma {:induction false} StripBlank(text: string)
    ensures Strip(text) == "" <==> AllBlank(text)
    decreases |text|
  {
    if text == "" {
    } else if IsBlank(text[0]) {
      StripBlank(text[1..]);
      assert forall i | 0 < i < |text| :: text[i] == text[1..][i - 1];
    } else if IsBlank(text[|text| - 1]) {
      StripBlank(text[..|text| - 1]);
      assert text[..|text| - 1][0] == text[0];
    }
  }

  /** A name given as blanks only is no name, and not the default either. */
  lemma BlankKey(text: string, default: string)
    requires !AllBlank(default)
    ensures KeyOrElse(text, default) == "" <==> text != "" && AllBlank(text)
  {
    StripBlank(text);
    StripBlank(default);
  }

  /** The code points that count as white space. */
  lemma BlankCodes(c: char)
    ensures IsBlank(c) <==>
      var k := c as int;
      9 <= k <= 13 || 28 <= k <= 32 || 8192 <= k <= 8202 || k in {133, 160, 5760, 8232, 8233, 8239, 8287, 12288}
  {
  }

  /** The text spells the name, each letter small or capital. */
  predicate Spells(text: string, name: string) {
    |text| == |name| &&
    forall i | 0 <= i < |name| :: text[i] == name[i] || ('a' <= name[i] <= 'z' && text[i] as int == name[i] as int - 32)
  }

  lemma LowerSpells(text: string, name: string)
    requires forall i | 0 <= i < |name| :: !('A' <= name[i] <= 'Z')
    ensures Lower(text) == name <==> Spells(text, name)
  {
    if Lower(text) == name {
      forall i | 0 <= i < |name|
        ensures text[i] == name[i] || ('a' <= name[i] <= 'z' && text[i] as int == name[i] as int - 32)
      {
        assert Lower(text)[i] == LowerChar(text[i]);
      }
    }
    if Spells(text, name) {
      assert forall i | 0 <= i < |name| :: Lower(text)[i] == LowerChar(text[i]) == name[i];
    }
  }

  /** A name is the one that the text between its blanks spells; a missing one is the default. */
  lemma NameIsSpelled(pre: string, text: string, post: string, default: string, name: string)
    requires AllBlank(pre) && AllBlank(post) && Trimmed(text) && Trimmed(default)
    requires forall i | 0 <= i < |name| :: !('A' <= name[i] <= 'Z')
    ensures KeyOrElse(pre + text + post, default) == name <==> Spells(if pre + text + post == "" then default else text, name)
  {
    hide Lower, Spells;
    StripPadded(pre, text, post);
    StripPadded("", default, "");
    assert "" + default + "" == default;
    LowerSpells(text, name);
    LowerSpells(default, name);
  }
}
