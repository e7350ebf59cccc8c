/** The field rules shared by the DNS command validators: the name pattern
    `^(?!-)(?:[a-z0-9-]{1,63}|xn--[a-z0-9]{1,59})$` written out as a
    predicate, and the two field rules that report failures. */
module DnsRules {
  import opened Wrappers
  import opened ValidationBehavior

  const NameMessage: string := "'Name' must be a valid name."
  const IpAddressMessage: string := "'IpAddress' must be a valid IP address."

  /** A character of the class `[a-z0-9-]`. */
  predicate IsLabelChar(c: char)
  {
    ('a' <= c <= 'z') || ('0' <= c <= '9') || c == '-'
  }

  /** A character of the class `[a-z0-9]`. */
  predicate IsAlphanumeric(c: char)
  {
    ('a' <= c <= 'z') || ('0' <= c <= '9')
  }

  /** The first alternative, `[a-z0-9-]{1,63}`. */
  predicate PlainLabel(t: string)
  {
    1 <= |t| <= 63 && forall i :: 0 <= i < |t| ==> IsLabelChar(t[i])
  }

  /** The second alternative, `xn--[a-z0-9]{1,59}`. */
  predicate PunycodeLabel(t: string)
  {
    5 <= |t| <= 63 && t[..4] == "xn--" && forall i :: 4 <= i < |t| ==> IsAlphanumeric(t[i])
  }

  /** The group between the anchors. */
  predicate LabelBody(t: string)
  {
    PlainLabel(t) || PunycodeLabel(t)
  }

  /** The whole pattern as the .NET engine applies it: the look-ahead rejects
      a leading '-', and `$` matches at the end of the input or just before a
      final line feed, so one trailing "\n" is accepted. Over every input this
      is: 1 to 63 characters from `[a-z0-9-]`, not starting with '-',
      optionally followed by one line feed. */
  predicate IsValidName(s: string)
    ensures IsValidName(s) <==>
              && s != [] && s[0] != '-'
              && (PlainLabel(s) || (s[|s| - 1] == '\n' && PlainLabel(s[..|s| - 1])))
  {
    LabelBodyIsPlain(s);
    LabelBodyIsPlain(if s == [] then [] else s[..|s| - 1]);
    && (s == [] || s[0] != '-')
    && (LabelBody(s) || (s != [] && s[|s| - 1] == '\n' && LabelBody(s[..|s| - 1])))
  }

  /** The `xn--` alternative adds nothing: every such label already matches
      the first alternative. */
  lemma PunycodeIsPlain(t: string)
    requires PunycodeLabel(t)
    ensures PlainLabel(t)
  {
    forall i | 0 <= i < |t| ensures IsLabelChar(t[i]) {
      if i < 4 {
        assert t[i] == t[..4][i];
      }
    }
  }

  /** The two alternatives of the group match exactly the labels of the
      first one. */
  lemma LabelBodyIsPlain(t: string)
    ensures LabelBody(t) <==> PlainLabel(t)
  {
    if PunycodeLabel(t) {
      PunycodeIsPlain(t);
    }
  }

  /** For input without a trailing line feed the rule is: 1 to 63 characters
      from `[a-z0-9-]`, not starting with '-'. */
  lemma ValidNameCharacterization(s: string)
    requires s == [] || s[|s| - 1] != '\n'
    ensures IsValidName(s) <==> PlainLabel(s) && s[0] != '-'
  {
    if PunycodeLabel(s) {
      PunycodeIsPlain(s);
    }
  }

  /** With a trailing line feed the rule holds exactly when it holds of the
      text before it. */
  lemma TrailingLineFeedCharacterization(t: string)
    requires t == [] || t[|t| - 1] != '\n'
    ensures IsValidName(t + "\n") <==> IsValidName(t)
  {
    var s := t + "\n";
    assert s[..|s| - 1] == t;
    assert !IsLabelChar('\n');
    assert !LabelBody(s) by {
      assert s[|s| - 1] == '\n';
      if PunycodeLabel(s) {
        PunycodeIsPlain(s);
      }
    }
    if t != [] {
      assert s[0] == t[0];
    }
  }

  lemma NameExamples()
    ensures !IsValidName("") && !IsValidName("-a") && !IsValidName("ABC")
    ensures IsValidName("a-") && IsValidName("a--b") && IsValidName("xn--abc")
    ensures IsValidName("abc\n") && !IsValidName("abc\n\n")
  {
    assert !IsLabelChar('A');
    assert "ABC"[0] == 'A';
    assert "abc\n\n"[..4] == "abc\n";
    assert "abc\n"[..3] == "abc";
    assert !IsLabelChar('\n');
    assert "abc\n\n"[3] == '\n';
    assert "abc\n"[3] == '\n';
  }

  /** The Name rule: an absent or non-matching name yields exactly one
      failure on property "Name"; a valid one yields none. */
  function NameRule(name: Option<string>): (fs: seq<ValidationFailure>)
    ensures |fs| <= 1
    ensures fs == [] <==> name.Some? && IsValidName(name.value)
    ensures fs != [] ==> fs[0] == ValidationFailure("Name", NameMessage)
  {
    if name.None? || !IsValidName(name.value) then [ValidationFailure("Name", NameMessage)] else []
  }

  /** The IpAddress rule: an absent address or one the platform's IP parser
      rejects yields exactly one failure on property "IpAddress". */
  function IpAddressRule(ipAddress: Option<string>, ipParses: string -> bool): (fs: seq<ValidationFailure>)
    ensures |fs| <= 1
    ensures fs == [] <==> ipAddress.Some? && ipParses(ipAddress.value)
    ensures fs != [] ==> fs[0] == ValidationFailure("IpAddress", IpAddressMessage)
  {
    if ipAddress.None? || !ipParses(ipAddress.value) then [ValidationFailure("IpAddress", IpAddressMessage)] else []
  }

  /** The Name rule followed by the IpAddress rule, as in the Create and
      Update validators: both run, so both failures can be reported. */
  function NameAndAddressFailures(name: string, ipAddress: string, ipParses: string -> bool): (fs: seq<ValidationFailure>)
    ensures fs == [] <==> IsValidName(name) && ipParses(ipAddress)
    ensures Reported(fs, "Name") <==> !IsValidName(name)
    ensures Reported(fs, "IpAddress") <==> !ipParses(ipAddress)
    ensures forall p :: Reported(fs, p) ==> p == "Name" || p == "IpAddress"
    ensures !IsValidName(name) && !ipParses(ipAddress) ==> |fs| == 2
  {
    var n := NameRule(Some(name));
    var a := IpAddressRule(Some(ipAddress), ipParses);
    var fs := n + a;
    assert forall i :: 0 <= i < |fs| ==> fs[i] == if i < |n| then n[0] else a[0];
    assert n != [] ==> fs[0] == n[0];
    assert a != [] ==> fs[|n|] == a[0];
    fs
  }

  /** Grouped by property, the Create and Update failures give each failing
      field exactly its one message. */
  lemma NameAndAddressGrouping(name: string, ipAddress: string, ipParses: string -> bool)
    ensures var g := GroupByProperty(NameAndAddressFailures(name, ipAddress, ipParses));
            && (forall p :: p in g ==> p == "Name" || p == "IpAddress")
            && ("Name" in g <==> !IsValidName(name))
            && ("Name" in g ==> g["Name"] == [NameMessage])
            && ("IpAddress" in g <==> !ipParses(ipAddress))
            && ("IpAddress" in g ==> g["IpAddress"] == [IpAddressMessage])
  {
    var fs := NameAndAddressFailures(name, ipAddress, ipParses);
    var n := NameRule(Some(name));
    var a := IpAddressRule(Some(ipAddress), ipParses);
    assert fs == n + a;
    if n != [] && a != [] {
      assert fs == [n[0], a[0]];
      assert fs[..1] == [n[0]];
      assert fs[..1][..0] == [];
    } else if n != [] {
      assert fs == [n[0]];
      assert fs[..0] == [];
    } else if a != [] {
      assert fs == [a[0]];
      assert fs[..0] == [];
    }
  }

  /** Grouped by property, the Delete failures give "Name" its one message
      when the name is invalid, and nothing otherwise. */
  lemma NameGrouping(name: string)
    ensures GroupByProperty(NameRule(Some(name)))
            == if IsValidName(name) then map[] else map["Name" := [NameMessage]]
  {
    var fs := NameRule(Some(name));
    var g := GroupByProperty(fs);
    if fs != [] {
      assert fs[..0] == [];
      assert MessagesFor(fs, "Name") == [NameMessage];
      assert forall p :: Reported(fs, p) <==> p == "Name";
      assert g == map["Name" := [NameMessage]];
    } else {
      assert forall p :: !Reported(fs, p);
      assert g == map[];
    }
  }
}
