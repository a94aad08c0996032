/** The user ids of GPG keys: a name, an optional comment and an e-mail
    address, written the way gpg prints them. */
module Gpg {
  import opened Wrappers
  import opened Strings

  /** What gpg prints in front of a user id in its key listings: `uid`
      padded with spaces to 31 characters. */
  const UidPrefix: string := "uid                            "

  /** One user id of a key; a key may carry several. */
  datatype Identity = Identity(name: string, comment: string, email: string)
  {
    /** `Name (Comment) <Email>`, the comment part only when there is a
        comment. */
    function ID(): (id: string)
      ensures HasPrefix(id, name)
      ensures |id| >= |name| + |email| + 3 && id[|id| - |email| - 3..] == " <" + email + ">"
      ensures comment == "" ==> |id| == |name| + |email| + 3
      ensures comment != "" ==>
        |id| == |name| + |comment| + |email| + 6 &&
        id[|name|..|name| + |comment| + 3] == " (" + comment + ")"
    {
      var out := if comment != "" then name + " (" + comment + ")" else name;
      out + " <" + email + ">"
    }

    /** The user id as gpg lists it: the fixed prefix, then the id. */
    function String(): (s: string)
      ensures |s| == |UidPrefix| + |ID()|
      ensures HasPrefix(s, UidPrefix) && s[|UidPrefix|..] == ID()
    {
      UidPrefix + ID()
    }

    /** The ids that can be read back: the name holds no `(` and the
        address no `<`, so the separators are found again. */
    predicate Readable() {
      '(' !in name && '<' !in email
    }
  }

  /** The part in front of the address: the name, and the comment when a `(`
      opens one. */
  function ParseHead(head: string): Option<(string, string)> {
    var i := IndexOf(head, '(');
    if i == |head| then Some((head, ""))
    else if i < 1 || head[i - 1] != ' ' || head[|head| - 1] != ')' || i + 1 > |head| - 1 then None
    else Some((head[..i - 1], head[i + 1..|head| - 1]))
  }

  /** Reading a user id: the address is what stands between the last `<` and
      the closing `>`; a `(` in what comes before it opens the comment. */
  function ParseID(text: string): (r: Option<Identity>)
    ensures r.Some? ==> r.value.Readable()
  {
    var j := LastIndexOf(text, '<');
    if |text| < 1 || text[|text| - 1] != '>' || j < 1 || j == |text| - 1 || text[j - 1] != ' ' then None
    else
      var head := ParseHead(text[..j - 1]);
      if head.None? then None
      else Some(Identity(head.value.0, head.value.1, text[j + 1..|text| - 1]))
  }

  /** The address is read back from behind the last `<`, and what precedes
      its separator is read as the name and the comment. */
  lemma ParseAddress(head: string, email: string)
    requires '<' !in email
    ensures var h := ParseHead(head);
      ParseID(head + " <" + email + ">") ==
        if h.None? then None else Some(Identity(h.value.0, h.value.1, email))
  {
    var s := head + " <" + email + ">";
    var j := |head| + 1;
    assert s[j] == '<' && s[j - 1] == ' ' && s[|s| - 1] == '>';
    forall k | j < k < |s| ensures s[k] != '<' {
      if k < |s| - 1 {
        assert s[k] == email[k - j - 1];
      }
    }
    assert LastIndexOf(s, '<') == j;
    assert s[..j - 1] == head;
    assert s[j + 1..|s| - 1] == email;
  }

  /** The name and the comment are read back from what precedes the address. */
  lemma HeadRoundTrip(name: string, comment: string)
    requires '(' !in name
    ensures ParseHead(if comment != "" then name + " (" + comment + ")" else name) == Some((name, comment))
  {
    if comment != "" {
      var head := name + " (" + comment + ")";
      forall k | 0 <= k < |name| ensures head[k] != '(' {
        assert head[k] == name[k];
      }
      assert head[|name| + 1] == '(';
      assert IndexOf(head, '(') == |name| + 1;
      assert head[|name|] == ' ' && head[|head| - 1] == ')';
      assert head[..|name|] == name;
      assert head[|name| + 2..|head| - 1] == comment;
    } else {
      assert IndexOf(name, '(') == |name|;
    }
  }

  /** Every readable identity is read back from its id. */
  lemma IdRoundTrip(id: Identity)
    requires id.Readable()
    ensures ParseID(id.ID()) == Some(id)
  {
    var head := if id.comment != "" then id.name + " (" + id.comment + ")" else id.name;
    assert id.ID() == head + " <" + id.email + ">";
    ParseAddress(head, id.email);
    HeadRoundTrip(id.name, id.comment);
  }

  /** Different readable identities have different ids, so listing them
      never shows two entries alike. */
  lemma IdInjective(a: Identity, b: Identity)
    requires a.Readable() && b.Readable()
    requires a.String() == b.String()
    ensures a == b
  {
    assert a.ID() == a.String()[|UidPrefix|..] == b.ID();
    IdRoundTrip(a);
    IdRoundTrip(b);
  }
}
