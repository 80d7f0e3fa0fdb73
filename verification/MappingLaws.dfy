/** What the validation of a mapping accepts, spelled out on the mapping's own fields. */
module MappingLaws {
  import opened Wrappers
  import opened Paths
  import opened SupabaseMapping

  /** Letters, digits and underscores, a digit not first. */
  lemma IdentifierExactly(s: string)
    ensures ValidIdentifier(s) <==>
            |s| > 0 && forall i :: 0 <= i < |s| ==>
              || 'a' <= s[i] <= 'z' || 'A' <= s[i] <= 'Z' || s[i] == '_' || ('0' <= s[i] <= '9' && i > 0)
  {
    assert forall i :: 0 <= i < |s| ==> s[i] in s;
  }

  lemma BucketExactly(s: string)
    ensures ValidBucket(s) <==>
            1 <= |s| <= 100 && forall i :: 0 <= i < |s| ==>
              || 'a' <= s[i] <= 'z' || 'A' <= s[i] <= 'Z' || '0' <= s[i] <= '9' || s[i] == '-' || s[i] == '_'
  {
    assert forall i :: 0 <= i < |s| ==> s[i] in s;
  }

  /** The effective action of a table: deleting when asked for in either way, else anonymising. */
  predicate Deletes(input: TableInput) {
    input.delete || input.action == Some(Delete)
  }

  /** A table is allowed if its names are identifiers, its action is one and not both, and its fields are none
    * to delete, or distinct identifiers with the identity column among them to anonymise; and it is mapped
    * as it was given. */
  lemma TableExactly(name: string, input: TableInput)
    ensures TableAllowed(name, input) <==>
            && ValidIdentifier(input.schema) && ValidIdentifier(name) && ValidIdentifier(input.identityColumn)
            && !(input.delete && input.action == Some(Anonymize)) && (input.delete || input.action.Some?)
            && (Deletes(input) ==> |input.fields| == 0)
            && (!Deletes(input) ==> input.identityColumn in input.fields)
            && (forall i :: 0 <= i < |input.fields| ==> ValidIdentifier(input.fields[i]))
            && (forall i, j :: 0 <= i < j < |input.fields| ==> input.fields[i] != input.fields[j])
    ensures TableAllowed(name, input) ==>
              var t := TableOf(name, input);
              && t.schema == input.schema && t.table == name && t.identityColumn == input.identityColumn
              && t.subjectField == input.subjectField && t.fields == input.fields
              && t.action == if Deletes(input) then Delete else Anonymize
  {
    assert forall i :: 0 <= i < |input.fields| ==> input.fields[i] in input.fields;
    assert input.action.Some? ==> input.action.value.Delete? || input.action.value.Anonymize?;
  }

  /** A mapping is allowed if it maps something, and every table and every bucket it names is allowed; a bucket
    * must be there to be deleted from. */
  lemma MappingExactly(input: Input)
    ensures Allowed(input) <==>
            && (|input.tables| > 0 || |input.storage| > 0 || input.deleteAuthUser)
            && (forall entry <- input.tables :: TableAllowed(entry.0, entry.1))
            && (forall entry <- input.storage ::
                  ValidBucket(entry.0) && entry.1.delete && ValidPrefixTemplate(entry.1.prefix))
  {
    assert forall i :: 0 <= i < |input.tables| ==> input.tables[i] in input.tables;
    assert forall i :: 0 <= i < |input.storage| ==> input.storage[i] in input.storage;
  }

  /** The token stands in one place, and in no other. */
  ghost predicate OneToken(s: string, head: string) {
    && TokenAfter(s, head)
    && forall other :: TokenAfter(s, other) ==> other == head
  }

  ghost predicate HoldsTokenOnce(s: string) {
    exists head :: OneToken(s, head)
  }

  ghost predicate TokenAfter(s: string, head: string) {
    head + TOKEN <= s
  }

  /** No token starts inside another. */
  lemma TokensApart(s: string, head: string)
    requires TOKEN <= s && TokenAfter(s, head) && head != ""
    ensures |head| >= |TOKEN| && TokenAfter(s[|TOKEN|..], head[|TOKEN|..])
  {
    var n := |head|;
    assert (head + TOKEN)[n] == TOKEN[0] == '{' && s[n] == (head + TOKEN)[n];
    var rest := head[|TOKEN|..] + TOKEN;
    assert rest == (head + TOKEN)[|TOKEN|..];
    assert s[|TOKEN|..][..|rest|] == rest;
  }

  lemma TokenShifts(s: string, head: string)
    requires s != ""
    ensures TokenAfter(s[1..], head) <==> TokenAfter(s, [s[0]] + head)
    ensures head != "" && TokenAfter(s, head) ==> head == [s[0]] + head[1..] && TokenAfter(s[1..], head[1..])
  {
    var longer := [s[0]] + head;
    assert longer + TOKEN == [s[0]] + (head + TOKEN);
    assert s == [s[0]] + s[1..];
    if TokenAfter(s, longer) {
      assert s[..|longer + TOKEN|] == longer + TOKEN;
      assert s[1..][..|head + TOKEN|] == (longer + TOKEN)[1..] == head + TOKEN;
    }
    if head != "" && TokenAfter(s, head) {
      assert s[..|head + TOKEN|] == head + TOKEN && s[0] == head[0];
      assert head == [s[0]] + head[1..];
      assert s[1..][..|head[1..] + TOKEN|] == (head + TOKEN)[1..] == head[1..] + TOKEN;
    }
  }

  lemma {:induction false} NoTokenExactly(s: string)
    ensures Occurrences(s) == 0 <==> forall head :: !TokenAfter(s, head)
    decreases |s|
  {
    if TOKEN <= s {
      assert "" + TOKEN == TOKEN;
      assert TokenAfter(s, "");
    } else if s != "" {
      NoTokenExactly(s[1..]);
      forall head | TokenAfter(s, head) ensures head != "" && TokenAfter(s[1..], head[1..]) {
        assert "" + TOKEN == TOKEN;
        TokenShifts(s, head);
      }
      forall head ensures TokenAfter(s[1..], head) ==> TokenAfter(s, [s[0]] + head) {
        TokenShifts(s, head);
      }
    }
  }

  lemma TokenAtFront(s: string, token: string)
    requires token <= s
    ensures "" + token <= s
    ensures forall head: string | head + token <= s[|token|..] :: (token + head) + token <= s
  {
    assert "" + token == token;
    assert s == token + s[|token|..];
    forall head: string | head + token <= s[|token|..]
      ensures (token + head) + token <= s
    {
      assert (token + head) + token == token + (head + token);
    }
  }

  /** With the token at the front, another would come after it. */
  lemma FirstTokenIsOne(s: string)
    requires TOKEN <= s
    ensures (forall head :: !TokenAfter(s[|TOKEN|..], head)) <==> OneToken(s, "")
  {
    TokenAtFront(s, TOKEN);
    if head :| TokenAfter(s[|TOKEN|..], head) {
      assert TokenAfter(s, TOKEN + head);
      assert TOKEN + head != "";
    } else {
      forall head | TokenAfter(s, head) ensures head == "" {
        if head != "" {
          TokensApart(s, head);
        }
      }
    }
  }

  lemma {:induction false} OneTokenExactly(s: string)
    ensures Occurrences(s) == 1 <==> HoldsTokenOnce(s)
    decreases |s|
  {
    assert "" + TOKEN == TOKEN;
    if TOKEN <= s {
      FirstTokenIsOne(s);
      NoTokenExactly(s[|TOKEN|..]);
      forall head | OneToken(s, head) ensures head == "" {
        assert TokenAfter(s, "");
      }
    } else if s != "" {
      OneTokenExactly(s[1..]);
      forall head
        ensures TokenAfter(s[1..], head) <==> TokenAfter(s, [s[0]] + head)
        ensures TokenAfter(s, head) ==> head != "" && head == [s[0]] + head[1..] && TokenAfter(s[1..], head[1..])
      {
        TokenShifts(s, head);
      }
      forall head | OneToken(s[1..], head) ensures OneToken(s, [s[0]] + head) {
      }
      forall head | OneToken(s, head) ensures OneToken(s[1..], head[1..]) {
        forall other | TokenAfter(s[1..], other) ensures other == head[1..] {
          assert [s[0]] + other == head;
        }
      }
    }
  }

  /** Plain segments, perhaps with a slash at the end. */
  ghost predicate PlainTemplate(value: string) {
    Plain(value) || exists path: string :: Plain(path) && value == path + "/"
  }

  function WithoutSlash(value: string): string {
    if value != "" && value[|value| - 1] == '/' then value[..|value| - 1] else value
  }

  lemma OneWithout(value: string, path: string)
    requires value == path + "/"
    ensures WithoutSlash(value) == path && !PlainSegments(value)
  {
    assert value[|path|] == '/';
    PlainEnds(value);
  }

  lemma SlashAtEnd(value: string)
    ensures PlainSegments(WithoutSlash(value)) <==> PlainTemplate(value)
    ensures PlainTemplate(value) ==> WithoutSlash(value) != "" && value[0] != '/'
  {
    var path := WithoutSlash(value);
    PlainExactly(path);
    PlainExactly(value);
    PlainEnds(path);
    forall other: string | value == other + "/"
      ensures path == other && !Plain(value)
    {
      OneWithout(value, other);
    }
    if path != value {
      assert value == path + "/";
    }
  }

  /** A template is valid if it is a path of plain segments, perhaps with a slash at the end, without a
    * backslash, that holds the token once. */
  lemma TemplateExactly(value: string)
    ensures ValidPrefixTemplate(value) <==> HoldsTokenOnce(value) && PlainTemplate(value) && '\\' !in value
  {
    OneTokenExactly(value);
    SlashAtEnd(value);
  }
}
