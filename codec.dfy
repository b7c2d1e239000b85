/**
 * The XML side of a message turn: `parse_message` flattens the pushed document into a
 * dictionary, `generate_reply` fills the text-reply template (main.py, handle-Flask.py).
 *
 * `ET.fromstring` is a parameter `fromString`: it yields the root's direct children as
 * (tag, text) pairs, or None where ElementTree raises a ParseError.
 */
module Codec {
  import opened Wrappers

  /** One direct child of the root: its tag and its `text`, which ElementTree leaves None when empty. */
  datatype Child = Child(tag: string, text: Option<string>)

  /** The tags present among `children`. */
  function Tags(children: seq<Child>): set<string>
  {
    set i | 0 <= i < |children| :: children[i].tag
  }

  /** No child after position `i` carries the tag of `children[i]`. */
  predicate IsLastOfTag(children: seq<Child>, i: int)
    requires 0 <= i < |children|
  {
    forall j :: i < j < |children| ==> children[j].tag != children[i].tag
  }

  /** The tags among the first `n` children. */
  function TagsBefore(children: seq<Child>, n: int): set<string>
    requires 0 <= n <= |children|
  {
    set i | 0 <= i < n :: children[i].tag
  }

  /** Among the first `n` children, none after position `i` carries the tag of `children[i]`. */
  predicate LastBefore(children: seq<Child>, n: int, i: int)
    requires 0 <= i < n <= |children|
  {
    forall j :: i < j < n ==> children[j].tag != children[i].tag
  }

  /** `msg` is the dictionary built from the first `n` children. */
  predicate Flattened(children: seq<Child>, n: int, msg: map<string, Option<string>>)
    requires 0 <= n <= |children|
  {
    && msg.Keys == TagsBefore(children, n)
    && forall i :: 0 <= i < n && LastBefore(children, n, i) ==> msg[children[i].tag] == children[i].text
  }

  /** Storing child `n` over the dictionary of the first `n` children gives that of the first `n + 1`. */
  lemma FlattenStep(children: seq<Child>, n: int, msg: map<string, Option<string>>)
    requires 0 <= n < |children| && Flattened(children, n, msg)
    ensures Flattened(children, n + 1, msg[children[n].tag := children[n].text])
  {
    var next := msg[children[n].tag := children[n].text];
    assert TagsBefore(children, n + 1) == TagsBefore(children, n) + {children[n].tag} by {
      forall t | t in TagsBefore(children, n + 1) ensures t in TagsBefore(children, n) + {children[n].tag} {
        var i :| 0 <= i < n + 1 && children[i].tag == t;
      }
    }
    forall i | 0 <= i < n + 1 && LastBefore(children, n + 1, i)
      ensures next[children[i].tag] == children[i].text
    {
      if i < n {
        assert children[n].tag != children[i].tag;
        assert LastBefore(children, n, i);
      }
    }
  }

  /**
   * `msg[child.tag] = child.text` for every child in order: one entry per distinct tag,
   * holding the text of the LAST child with that tag.
   */
  method Flatten(children: seq<Child>) returns (msg: map<string, Option<string>>)
    ensures msg.Keys == Tags(children)
    ensures forall i :: 0 <= i < |children| && IsLastOfTag(children, i) ==> msg[children[i].tag] == children[i].text
  {
    msg := map[];
    var n := 0;
    while n < |children|
      invariant 0 <= n <= |children|
      invariant Flattened(children, n, msg)
    {
      FlattenStep(children, n, msg);
      msg := msg[children[n].tag := children[n].text];
      n := n + 1;
    }
    assert forall i :: 0 <= i < |children| && IsLastOfTag(children, i) ==> LastBefore(children, n, i);
  }

  /**
   * `parse_message(xml)`: the flattened children of the parsed document; None where the XML
   * parser raises (the exception is not caught by the handler).
   */
  method ParseMessage(xml: string, fromString: string -> Option<seq<Child>>)
    returns (msg: Option<map<string, Option<string>>>)
    ensures msg.None? <==> fromString(xml).None?
    ensures msg.Some? ==> msg.value.Keys == Tags(fromString(xml).value)
    ensures msg.Some? ==> forall i :: 0 <= i < |fromString(xml).value| && IsLastOfTag(fromString(xml).value, i)
                                  ==> msg.value[fromString(xml).value[i].tag] == fromString(xml).value[i].text
  {
    var root := fromString(xml);
    if root.None? {
      return None;
    }
    var flat := Flatten(root.value);
    msg := Some(flat);
  }

  // ---------------------------------------------------------------- str(int)

  function DigitChar(d: nat): (c: char)
    requires d < 10
    ensures '0' <= c <= '9' && (c as int) - ('0' as int) == d
  {
    (('0' as int) + d) as char
  }

  predicate AllDigits(s: string)
  {
    forall k :: 0 <= k < |s| ==> '0' <= s[k] <= '9'
  }

  /** Decimal digits of `n`, most significant first, as Python's `str` writes a non-negative int. */
  function NatToString(n: nat): (r: string)
    ensures r != [] && AllDigits(r)
    ensures |r| > 1 ==> r[0] != '0'
    decreases n
  {
    if n < 10 then [DigitChar(n)] else NatToString(n / 10) + [DigitChar(n % 10)]
  }

  /** The value of a string of decimal digits. */
  function DecimalValue(s: string): int
  {
    if s == [] then 0 else DecimalValue(s[..|s| - 1]) * 10 + ((s[|s| - 1] as int) - ('0' as int))
  }

  lemma {:induction false} NatToStringRoundTrip(n: nat)
    ensures DecimalValue(NatToString(n)) == n
  {
    if n >= 10 {
      NatToStringRoundTrip(n / 10);
      var s := NatToString(n);
      assert s[..|s| - 1] == NatToString(n / 10);
    }
  }

  /** `str(i)` for a Python int: a minus sign before the digits of a negative number. */
  function IntToString(i: int): string
  {
    if i < 0 then "-" + NatToString(-i) else NatToString(i)
  }

  /** `int(s)` for the strings `str` writes. */
  function IntValue(s: string): int
  {
    if s != [] && s[0] == '-' then -DecimalValue(s[1..]) else DecimalValue(s)
  }

  /** `int(str(i)) == i`: the `CreateTime` text determines the number. */
  lemma IntToStringRoundTrip(i: int)
    ensures IntValue(IntToString(i)) == i
  {
    if i < 0 {
      assert IntToString(i)[1..] == NatToString(-i);
      NatToStringRoundTrip(-i);
    } else {
      NatToStringRoundTrip(i);
    }
  }

  // ---------------------------------------------------------------- generate_reply

  /** The template text before `from_user`. */
  const ReplyLead: string := "\n    <xml>\n      <ToUserName><![CDATA["
  /** The template text between `from_user` and `to_user`. */
  const ReplyAfterTo: string := "]]></ToUserName>\n      <FromUserName><![CDATA["
  /** The template text between `to_user` and the time. */
  const ReplyAfterFrom: string := "]]></FromUserName>\n      <CreateTime>"
  /** The template text between the time and `content`: closes CreateTime, writes the fixed MsgType. */
  const ReplyAfterTime: string := "</CreateTime>\n      <MsgType><![CDATA[text]]></MsgType>\n      <Content><![CDATA["
  /** The template text after `content`. */
  const ReplyTail: string := "]]></Content>\n    </xml>\n    "

  /**
   * The f-string of `generate_reply`, with its fixed text as the parameters `lead` .. `tail`: the
   * nine pieces concatenated in order. The grouping of the concatenations carries no meaning; it
   * only keeps the offsets the lemmas below state cheap for the verifier to reach.
   */
  function Fill(lead: string, to: string, afterTo: string, from: string, afterFrom: string, time: string,
                afterTime: string, content: string, tail: string): string
  {
    lead + (to + (afterTo + from)) + ((afterFrom + time) + (afterTime + content + tail))
  }

  /** The two addressed values sit at their own offsets, and the filled text ends with the text from `afterTime` on. */
  lemma FillValues(lead: string, to: string, afterTo: string, from: string, afterFrom: string, time: string,
                   afterTime: string, content: string, tail: string)
    ensures var r := Fill(lead, to, afterTo, from, afterFrom, time, afterTime, content, tail);
      && |r| == |lead| + |to| + |afterTo| + |from| + |afterFrom| + |time| + |afterTime| + |content| + |tail|
      && r[|lead|..|lead| + |to|] == to
      && r[|lead| + |to| + |afterTo|..|lead| + |to| + |afterTo| + |from|] == from
      && r[|r| - |afterTime + content + tail|..] == afterTime + content + tail
  {
    var front := lead + (to + (afterTo + from));
    var back := (afterFrom + time) + (afterTime + content + tail);
    var r := front + back;
    assert r[|lead|..|lead| + |to|] == front[|lead|..|lead| + |to|] == to;
    assert r[|lead| + |to| + |afterTo|..|lead| + |to| + |afterTo| + |from|] == front[|lead| + |to| + |afterTo|..] == from;
    assert r[|r| - |afterTime + content + tail|..] == back[|afterFrom + time|..] == afterTime + content + tail;
  }

  /** The filled text begins with the lead, the first value, its separator, the second value and its separator. */
  lemma FillFront(lead: string, to: string, afterTo: string, from: string, afterFrom: string, time: string,
                  afterTime: string, content: string, tail: string)
    ensures var r := Fill(lead, to, afterTo, from, afterFrom, time, afterTime, content, tail);
      && |lead + to + afterTo + from + afterFrom| <= |r|
      && r[..|lead + to + afterTo + from + afterFrom|] == lead + to + afterTo + from + afterFrom
  {
    var front := lead + (to + (afterTo + from));
    var back := (afterFrom + time) + (afterTime + content + tail);
    assert front + afterFrom == lead + to + afterTo + from + afterFrom;
    assert front + back == (front + afterFrom) + (time + (afterTime + content + tail));
  }

  /** `generate_reply(from_user, to_user, tim, content)`: the template filled with the four values. */
  function GenerateReply(fromUser: string, toUser: string, tim: int, content: string): string
  {
    Fill(ReplyLead, fromUser, ReplyAfterTo, toUser, ReplyAfterFrom, IntToString(tim), ReplyAfterTime, content, ReplyTail)
  }

  /** The reply is the template with the four values inserted: its length is the sum of the parts. */
  lemma ReplyLength(fromUser: string, toUser: string, tim: int, content: string)
    ensures |GenerateReply(fromUser, toUser, tim, content)|
         == |ReplyLead| + |fromUser| + |ReplyAfterTo| + |toUser| + |ReplyAfterFrom|
            + |IntToString(tim)| + |ReplyAfterTime| + |content| + |ReplyTail|
  {
    FillValues(ReplyLead, fromUser, ReplyAfterTo, toUser, ReplyAfterFrom, IntToString(tim), ReplyAfterTime, content, ReplyTail);
  }

  /**
   * The reply is addressed back to the sender: it opens with `<ToUserName><![CDATA[`, `from_user`,
   * `]]></ToUserName>`, `<FromUserName><![CDATA[`, `to_user` and `]]></FromUserName>`, each value
   * inserted verbatim.
   */
  lemma ReplyAddressedBack(fromUser: string, toUser: string, tim: int, content: string)
    ensures var r := GenerateReply(fromUser, toUser, tim, content);
      && |ReplyLead + fromUser + ReplyAfterTo + toUser + ReplyAfterFrom| <= |r|
      && r[..|ReplyLead + fromUser + ReplyAfterTo + toUser + ReplyAfterFrom|]
         == ReplyLead + fromUser + ReplyAfterTo + toUser + ReplyAfterFrom
      && r[|ReplyLead|..|ReplyLead| + |fromUser|] == fromUser
      && r[|ReplyLead| + |fromUser| + |ReplyAfterTo|..|ReplyLead| + |fromUser| + |ReplyAfterTo| + |toUser|] == toUser
  {
    FillFront(ReplyLead, fromUser, ReplyAfterTo, toUser, ReplyAfterFrom, IntToString(tim), ReplyAfterTime, content, ReplyTail);
    FillValues(ReplyLead, fromUser, ReplyAfterTo, toUser, ReplyAfterFrom, IntToString(tim), ReplyAfterTime, content, ReplyTail);
  }

  /**
   * The reply ends with the fixed text that sets MsgType to `text` and opens Content, then the
   * content, verbatim and unescaped, then the closing template text.
   */
  lemma ReplyTextContent(fromUser: string, toUser: string, tim: int, content: string)
    ensures var r := GenerateReply(fromUser, toUser, tim, content);
      && |ReplyAfterTime + content + ReplyTail| <= |r|
      && r[|r| - |ReplyAfterTime + content + ReplyTail|..] == ReplyAfterTime + content + ReplyTail
  {
    FillValues(ReplyLead, fromUser, ReplyAfterTo, toUser, ReplyAfterFrom, IntToString(tim), ReplyAfterTime, content, ReplyTail);
  }

  /** A value carrying the separator that follows it can be shifted into its neighbour. */
  lemma {:induction false} FillShift(lead: string, a: string, sep: string, b: string, c: string, afterFrom: string,
                                     time: string, afterTime: string, content: string, tail: string)
    ensures Fill(lead, a + sep + b, sep, c, afterFrom, time, afterTime, content, tail)
         == Fill(lead, a, sep, b + sep + c, afterFrom, time, afterTime, content, tail)
  {
  }

  /**
   * Nothing is escaped: a sender name that carries the closing `]]>` and the template text after
   * it yields the same reply as a different sender and recipient.
   */
  lemma ReplyNotEscaped(a: string, b: string, c: string, tim: int, content: string)
    ensures GenerateReply(a + ReplyAfterTo + b, c, tim, content)
         == GenerateReply(a, b + ReplyAfterTo + c, tim, content)
  {
    FillShift(ReplyLead, a, ReplyAfterTo, b, c, ReplyAfterFrom, IntToString(tim), ReplyAfterTime, content, ReplyTail);
  }
}
