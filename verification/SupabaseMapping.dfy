/** The validated mapping of an application's tables and buckets to a subject. */
module SupabaseMapping {
  import opened Wrappers
  import opened Paths

  datatype TableAction = Delete | Anonymize

  datatype SubjectField = ApplicationUserId | Email

  datatype TableInput = TableInput(
    schema: string, identityColumn: string, subjectField: SubjectField, delete: bool, action: Option<TableAction>,
    fields: seq<string>)

  datatype StorageInput = StorageInput(prefix: string, delete: bool)

  datatype Input = Input(
    tables: seq<(string, TableInput)>, storage: seq<(string, StorageInput)>, deleteAuthUser: bool)

  datatype TableMapping = TableMapping(
    schema: string, table: string, identityColumn: string, subjectField: SubjectField, action: TableAction,
    fields: seq<string>)

  datatype StorageMapping = StorageMapping(bucket: string, prefix: string)

  datatype Mapping = Mapping(tables: seq<TableMapping>, storage: seq<StorageMapping>, deleteAuthUser: bool)

  datatype ConfigError =
    | MappingEmpty | IdentifierInvalid | TableActionInvalid | TableFieldsInvalid | BucketInvalid
    | StorageMappingInvalid | StableUserIdRequired | SubjectFieldRequired

  datatype Subject = Subject(applicationUserId: Option<string>, email: Option<string>)

  const TOKEN := "{user_id}"

  // ----- names -----

  predicate Digit(c: char) {
    '0' <= c <= '9'
  }

  predicate Alphanumeric(c: char) {
    Digit(c) || 'a' <= c <= 'z' || 'A' <= c <= 'Z'
  }

  predicate ValidIdentifier(s: string) {
    s != "" && !Digit(s[0]) && forall c <- s :: Alphanumeric(c) || c == '_'
  }

  predicate ValidBucket(s: string) {
    s != "" && |s| <= 100 && forall c <- s :: Alphanumeric(c) || c == '-' || c == '_'
  }

  // ----- tables -----

  function ActionOf(input: TableInput): Option<TableAction> {
    if input.delete then (if input.action in {None, Some(Delete)} then Some(Delete) else None) else input.action
  }

  predicate Distinct(fields: seq<string>) {
    forall i, j :: 0 <= i < j < |fields| ==> fields[i] != fields[j]
  }

  predicate FieldsAllowed(action: TableAction, input: TableInput) {
    if action == Delete then input.fields == [] else input.identityColumn in input.fields
  }

  predicate TableAllowed(name: string, input: TableInput) {
    && ValidIdentifier(input.schema) && ValidIdentifier(name) && ValidIdentifier(input.identityColumn)
    && ActionOf(input).Some? && FieldsAllowed(ActionOf(input).value, input)
    && (forall f <- input.fields :: ValidIdentifier(f)) && Distinct(input.fields)
  }

  function TableOf(name: string, input: TableInput): TableMapping
    requires TableAllowed(name, input)
  {
    TableMapping(input.schema, name, input.identityColumn, input.subjectField, ActionOf(input).value, input.fields)
  }

  /** What every validated table mapping promises the statements built from it. */
  predicate ValidTable(t: TableMapping) {
    && ValidIdentifier(t.schema) && ValidIdentifier(t.table) && ValidIdentifier(t.identityColumn)
    && (forall f <- t.fields :: ValidIdentifier(f)) && Distinct(t.fields)
    && (t.action == Delete ==> t.fields == [])
    && (t.action == Anonymize ==> t.identityColumn in t.fields)
  }

  predicate FieldsGood(fields: seq<string>) {
    (forall f <- fields :: ValidIdentifier(f)) && Distinct(fields)
  }

  /** The first field that is wrong decides the error. */
  ghost predicate FieldsFail(fields: seq<string>, e: ConfigError) {
    exists i :: 0 <= i < |fields| && FieldsGood(fields[..i])
                && if !ValidIdentifier(fields[i]) then e == IdentifierInvalid
                   else fields[i] in fields[..i] && e == TableFieldsInvalid
  }

  /** What is wrong with a table, in the order of the checks. */
  ghost predicate TableFails(name: string, input: TableInput, e: ConfigError) {
    if !ValidIdentifier(input.schema) || !ValidIdentifier(name) || !ValidIdentifier(input.identityColumn)
    then e == IdentifierInvalid
    else if (if input.delete then input.action == Some(Anonymize) else input.action == None) then e == TableActionInvalid
    else if (if input.delete || input.action == Some(Delete) then input.fields != []
             else input.identityColumn !in input.fields) then e == TableFieldsInvalid
    else FieldsFail(input.fields, e)
  }

  method ValidateFields(fields: seq<string>) returns (error: Option<ConfigError>)
    ensures error.None? <==> FieldsGood(fields)
    ensures error.Some? ==> FieldsFail(fields, error.value)
  {
    var unique: set<string> := {};
    var i := 0;
    while i < |fields|
      invariant 0 <= i <= |fields|
      invariant unique == set f | f in fields[..i]
      invariant forall f <- fields[..i] :: ValidIdentifier(f)
      invariant Distinct(fields[..i])
    {
      var field := fields[i];
      assert fields[..i + 1] == fields[..i] + [field];
      assert FieldsGood(fields[..i]);
      if !ValidIdentifier(field) {
        return Some(IdentifierInvalid);
      }
      if field in unique {
        var j :| 0 <= j < i && fields[j] == field;
        return Some(TableFieldsInvalid);
      }
      unique := unique + {field};
      i := i + 1;
    }
    assert fields[..i] == fields;
    error := None;
  }

  method ValidateTable(name: string, input: TableInput) returns (r: Result<TableMapping, ConfigError>)
    ensures r.Ok? <==> TableAllowed(name, input)
    ensures r.Ok? ==> r.value == TableOf(name, input) && ValidTable(r.value)
    ensures r.Err? ==> TableFails(name, input, r.error)
  {
    if !ValidIdentifier(input.schema) || !ValidIdentifier(name) || !ValidIdentifier(input.identityColumn) {
      return Err(IdentifierInvalid);
    }
    var action;
    match (input.delete, input.action) {
      case (true, None) => action := Delete;
      case (true, Some(Delete)) => action := Delete;
      case (false, Some(given)) => action := given;
      case _ => return Err(TableActionInvalid);
    }
    if (action == Delete && input.fields != [])
       || (action == Anonymize && (input.fields == [] || input.identityColumn !in input.fields)) {
      return Err(TableFieldsInvalid);
    }
    var error := ValidateFields(input.fields);
    if error.Some? {
      return Err(error.value);
    }
    r := Ok(TableMapping(input.schema, name, input.identityColumn, input.subjectField, action, input.fields));
  }

  // ----- buckets -----

  function Occurrences(s: string): nat
    decreases |s|
  {
    if s == "" then 0 else if TOKEN <= s then 1 + Occurrences(s[|TOKEN|..]) else Occurrences(s[1..])
  }

  function Substitute(s: string, id: string): string
    decreases |s|
  {
    if s == "" then ""
    else if TOKEN <= s then id + Substitute(s[|TOKEN|..], id)
    else [s[0]] + Substitute(s[1..], id)
  }

  predicate ValidPrefixTemplate(value: string) {
    var path := if value != "" && value[|value| - 1] == '/' then value[..|value| - 1] else value;
    && Occurrences(value) == 1 && path != "" && value[0] != '/' && '\\' !in value
    && PlainSegments(path)
  }

  predicate StorageAllowed(bucket: string, input: StorageInput) {
    ValidBucket(bucket) && input.delete && ValidPrefixTemplate(input.prefix)
  }

  // ----- the whole mapping -----

  predicate Allowed(input: Input) {
    && (input.tables != [] || input.storage != [] || input.deleteAuthUser)
    && (forall i :: 0 <= i < |input.tables| ==> TableAllowed(input.tables[i].0, input.tables[i].1))
    && (forall i :: 0 <= i < |input.storage| ==> StorageAllowed(input.storage[i].0, input.storage[i].1))
  }

  /** What is wrong with a mapping: nothing in it, or its first wrong table, or its first wrong bucket. */
  ghost predicate Fails(input: Input, e: ConfigError) {
    if input.tables == [] && input.storage == [] && !input.deleteAuthUser then e == MappingEmpty
    else
      || (exists i :: 0 <= i < |input.tables|
                      && (forall k :: 0 <= k < i ==> TableAllowed(input.tables[k].0, input.tables[k].1))
                      && TableFails(input.tables[i].0, input.tables[i].1, e))
      || ((forall k :: 0 <= k < |input.tables| ==> TableAllowed(input.tables[k].0, input.tables[k].1))
          && exists i :: 0 <= i < |input.storage|
                         && (forall k :: 0 <= k < i ==> StorageAllowed(input.storage[k].0, input.storage[k].1))
                         && if !ValidBucket(input.storage[i].0) then e == BucketInvalid
                            else !StorageAllowed(input.storage[i].0, input.storage[i].1) && e == StorageMappingInvalid)
  }

  /** Validation accepts exactly the allowed mappings, entry by entry, and keeps every entry. */
  method Validate(input: Input) returns (r: Result<Mapping, ConfigError>)
    ensures r.Ok? <==> Allowed(input)
    ensures r.Ok? ==>
              && |r.value.tables| == |input.tables| && |r.value.storage| == |input.storage|
              && (forall i :: 0 <= i < |input.tables| ==>
                    r.value.tables[i] == TableOf(input.tables[i].0, input.tables[i].1) && ValidTable(r.value.tables[i]))
              && (forall i :: 0 <= i < |input.storage| ==>
                    && r.value.storage[i] == StorageMapping(input.storage[i].0, input.storage[i].1.prefix)
                    && ValidPrefixTemplate(r.value.storage[i].prefix))
              && r.value.deleteAuthUser == input.deleteAuthUser
    ensures r.Err? ==> Fails(input, r.error)
  {
    if input.tables == [] && input.storage == [] && !input.deleteAuthUser {
      return Err(MappingEmpty);
    }
    var tables: seq<TableMapping> := [];
    while |tables| < |input.tables|
      invariant |tables| <= |input.tables|
      invariant forall i :: 0 <= i < |tables| ==>
                  && TableAllowed(input.tables[i].0, input.tables[i].1)
                  && tables[i] == TableOf(input.tables[i].0, input.tables[i].1) && ValidTable(tables[i])
    {
      var (name, table) := input.tables[|tables|];
      var t := ValidateTable(name, table);
      if t.Err? {
        return Err(t.error);
      }
      tables := tables + [t.value];
    }
    var storage: seq<StorageMapping> := [];
    while |storage| < |input.storage|
      invariant |storage| <= |input.storage|
      invariant forall i :: 0 <= i < |storage| ==>
                  && StorageAllowed(input.storage[i].0, input.storage[i].1)
                  && storage[i] == StorageMapping(input.storage[i].0, input.storage[i].1.prefix)
    {
      var (bucket, s) := input.storage[|storage|];
      if !ValidBucket(bucket) {
        return Err(BucketInvalid);
      }
      if !s.delete || !ValidPrefixTemplate(s.prefix) {
        return Err(StorageMappingInvalid);
      }
      storage := storage + [StorageMapping(bucket, s.prefix)];
    }
    r := Ok(Mapping(tables, storage, input.deleteAuthUser));
  }

  // ----- a subject's values -----

  /** The Unicode property White_Space. */
  predicate Whitespace(c: char) {
    var n := c as int;
    || 9 <= n <= 13 || n == 32 || n == 0x85 || n == 0xA0 || n == 0x1680 || 0x2000 <= n <= 0x200A
    || n == 0x2028 || n == 0x2029 || n == 0x202F || n == 0x205F || n == 0x3000
  }

  function TrimStart(s: string): string {
    if s != "" && Whitespace(s[0]) then TrimStart(s[1..]) else s
  }

  function TrimEnd(s: string): string {
    if s != "" && Whitespace(s[|s| - 1]) then TrimEnd(s[..|s| - 1]) else s
  }

  function NonBlank(value: Option<string>): Option<string> {
    if value.None? || TrimEnd(TrimStart(value.value)) == "" then None else Some(TrimEnd(TrimStart(value.value)))
  }

  function SubjectValue(t: TableMapping, subject: Subject): Result<string, ConfigError> {
    var value := NonBlank(if t.subjectField == ApplicationUserId then subject.applicationUserId else subject.email);
    if value.None? then Err(SubjectFieldRequired) else Ok(value.value)
  }

  function SubjectPrefix(s: StorageMapping, subject: Subject): Result<string, ConfigError> {
    var id := NonBlank(subject.applicationUserId);
    if id.None? then Err(StableUserIdRequired) else Ok(Substitute(s.prefix, id.value))
  }

  // ----- what a subject's value is -----

  predicate AllWhite(s: string) {
    forall c <- s :: Whitespace(c)
  }

  /** A field holds a value: the value between white space, itself not blank and with no white space at its ends. */
  ghost predicate Means(field: Option<string>, value: string) {
    && field.Some? && value != "" && !Whitespace(value[0]) && !Whitespace(value[|value| - 1])
    && exists lead: string, trail: string :: AllWhite(lead) && AllWhite(trail) && field.value == lead + value + trail
  }

  /** A field that is missing or holds white space only. */
  predicate Missing(field: Option<string>) {
    field.None? || AllWhite(field.value)
  }

  lemma {:induction false} TrimmedStart(s: string) returns (lead: string)
    ensures AllWhite(lead) && s == lead + TrimStart(s)
    ensures TrimStart(s) != "" ==> !Whitespace(TrimStart(s)[0])
  {
    lead := "";
    if s != "" && Whitespace(s[0]) {
      var rest := TrimmedStart(s[1..]);
      lead := [s[0]] + rest;
    }
  }

  lemma {:induction false} TrimmedEnd(s: string) returns (trail: string)
    ensures AllWhite(trail) && s == TrimEnd(s) + trail
    ensures TrimEnd(s) != "" ==> !Whitespace(TrimEnd(s)[|TrimEnd(s)| - 1])
  {
    trail := "";
    if s != "" && Whitespace(s[|s| - 1]) {
      var n := |s| - 1;
      var rest := TrimmedEnd(s[..n]);
      trail := rest + [s[n]];
      assert s == s[..n] + [s[n]];
    }
  }

  lemma {:induction false} LeadTrimmed(lead: string, s: string)
    requires AllWhite(lead) && (s == "" || !Whitespace(s[0]))
    ensures TrimStart(lead + s) == s
  {
    if lead == "" {
      assert lead + s == s;
    } else {
      assert (lead + s)[1..] == lead[1..] + s;
      LeadTrimmed(lead[1..], s);
    }
  }

  lemma {:induction false} TrailTrimmed(s: string, trail: string)
    requires AllWhite(trail) && (s == "" || !Whitespace(s[|s| - 1]))
    ensures TrimEnd(s + trail) == s
  {
    if trail == "" {
      assert s + trail == s;
    } else {
      var n := |trail| - 1;
      assert (s + trail)[..|s + trail| - 1] == s + trail[..n];
      TrailTrimmed(s, trail[..n]);
    }
  }

  /** What trimming leaves of a field, and what it takes off. */
  lemma TrimmedParts(s: string) returns (lead: string, trail: string)
    ensures AllWhite(lead) && AllWhite(trail) && s == lead + TrimEnd(TrimStart(s)) + trail
    ensures var t := TrimEnd(TrimStart(s)); t != "" ==> !Whitespace(t[0]) && !Whitespace(t[|t| - 1])
  {
    lead := TrimmedStart(s);
    trail := TrimmedEnd(TrimStart(s));
    assert TrimEnd(TrimStart(s)) != "" ==> TrimStart(s)[0] == TrimEnd(TrimStart(s))[0];
  }

  lemma MeaningTrimmed(s: string, value: string, lead: string, trail: string)
    requires value != "" && !Whitespace(value[0]) && !Whitespace(value[|value| - 1])
    requires AllWhite(lead) && AllWhite(trail) && s == lead + value + trail
    ensures TrimEnd(TrimStart(s)) == value
  {
    assert s == lead + (value + trail);
    LeadTrimmed(lead, value + trail);
    TrailTrimmed(value, trail);
  }

  lemma BlankTrimmed(s: string)
    ensures TrimEnd(TrimStart(s)) == "" <==> AllWhite(s)
  {
    var lead, trail := TrimmedParts(s);
    var t := TrimEnd(TrimStart(s));
    if t == "" {
      assert s == lead + trail;
    } else {
      assert s[|lead|] == t[0] && s[|lead|] in s;
    }
  }

  /** A field yields exactly the value it holds, and none exactly when it is missing or blank. */
  lemma NonBlankExactly(field: Option<string>, value: string)
    ensures NonBlank(field) == Some(value) <==> Means(field, value)
    ensures NonBlank(field) == None <==> Missing(field)
  {
    if field.Some? {
      var lead, trail := TrimmedParts(field.value);
      BlankTrimmed(field.value);
      if Means(field, value) {
        var a: string, b: string :| AllWhite(a) && AllWhite(b) && field.value == a + value + b;
        MeaningTrimmed(field.value, value, a, b);
      }
    }
  }

  /** The value by which a table's rows are the subject's: what the mapped field holds. */
  ghost predicate Identifies(t: TableMapping, subject: Subject, value: string) {
    match t.subjectField
    case ApplicationUserId => Means(subject.applicationUserId, value)
    case Email => Means(subject.email, value)
  }

  predicate Unidentified(t: TableMapping, subject: Subject) {
    match t.subjectField
    case ApplicationUserId => Missing(subject.applicationUserId)
    case Email => Missing(subject.email)
  }

  lemma SubjectValueExactly(t: TableMapping, subject: Subject, value: string)
    ensures SubjectValue(t, subject) == Ok(value) <==> Identifies(t, subject, value)
    ensures SubjectValue(t, subject).Err? <==> Unidentified(t, subject)
  {
    NonBlankExactly(subject.applicationUserId, value);
    NonBlankExactly(subject.email, value);
  }

  // ----- one place for the subject -----

  lemma {:induction false} NoToken(s: string, id: string)
    requires Occurrences(s) == 0
    ensures Substitute(s, id) == s
    decreases |s|
  {
    if s != "" {
      NoToken(s[1..], id);
    }
  }

  lemma TokenFirst(s: string, id: string)
    requires TOKEN <= s && Occurrences(s[|TOKEN|..]) == 0
    ensures Substitute(s, id) == "" + id + s[|TOKEN|..]
  {
    NoToken(s[|TOKEN|..], id);
    assert "" + id == id;
  }

  lemma TokenLater(s: string, id: string, rest: string, tail: string)
    requires s != "" && !(TOKEN <= s)
    requires Substitute(s[1..], id) == rest + id + tail
    ensures Substitute(s, id) == ([s[0]] + rest) + id + tail
  {
    assert [s[0]] + (rest + id + tail) == ([s[0]] + rest) + id + tail;
  }

  /** A template with one token is the token between two fixed parts, and substitution fills just it. */
  lemma {:induction false} TemplateSplits(s: string)
    returns (head: string, tail: string)
    requires Occurrences(s) == 1
    ensures s == head + TOKEN + tail
    ensures forall id :: Substitute(s, id) == head + id + tail
    decreases |s|
  {
    if TOKEN <= s {
      head, tail := "", s[|TOKEN|..];
      forall id
        ensures Substitute(s, id) == head + id + tail
      {
        TokenFirst(s, id);
      }
    } else {
      var rest;
      rest, tail := TemplateSplits(s[1..]);
      head := [s[0]] + rest;
      assert s == [s[0]] + s[1..];
      forall id
        ensures Substitute(s, id) == head + id + tail
      {
        TokenLater(s, id, rest, tail);
      }
    }
  }

  /** A validated bucket never yields an empty prefix, and different subjects get different prefixes. */
  lemma SubjectPrefixesDiffer(s: StorageMapping, one: Subject, other: Subject)
    requires ValidPrefixTemplate(s.prefix)
    requires SubjectPrefix(s, one).Ok? && SubjectPrefix(s, other).Ok?
    ensures SubjectPrefix(s, one).value != ""
    ensures SubjectPrefix(s, one) == SubjectPrefix(s, other) <==>
              NonBlank(one.applicationUserId) == NonBlank(other.applicationUserId)
  {
    var head, tail := TemplateSplits(s.prefix);
    var a, b := NonBlank(one.applicationUserId).value, NonBlank(other.applicationUserId).value;
    assert Substitute(s.prefix, a) == head + a + tail && Substitute(s.prefix, b) == head + b + tail;
    assert |head + a + tail| >= |a| > 0;
    if head + a + tail == head + b + tail {
      assert |a| == |b|;
      assert a == (head + a + tail)[|head|..|head| + |a|];
      assert b == (head + b + tail)[|head|..|head| + |b|];
    }
  }

  /** A prefix is the template with the subject's user id in the place of the token, and an error exactly when
    * there is no user id. */
  lemma PrefixExactly(s: StorageMapping, subject: Subject) returns (head: string, tail: string)
    requires ValidPrefixTemplate(s.prefix)
    ensures s.prefix == head + TOKEN + tail
    ensures forall id :: Means(subject.applicationUserId, id) ==> SubjectPrefix(s, subject) == Ok(head + id + tail)
    ensures SubjectPrefix(s, subject) == Err(StableUserIdRequired) <==> Missing(subject.applicationUserId)
    ensures SubjectPrefix(s, subject).Err? ==> SubjectPrefix(s, subject).error == StableUserIdRequired
  {
    head, tail := TemplateSplits(s.prefix);
    NonBlankExactly(subject.applicationUserId, "");
    forall id | Means(subject.applicationUserId, id)
      ensures SubjectPrefix(s, subject) == Ok(head + id + tail)
    {
      NonBlankExactly(subject.applicationUserId, id);
    }
  }

  /** The object names a bucket's statements reach for a subject. */
  predicate Reaches(s: StorageMapping, subject: Subject, name: string) {
    SubjectPrefix(s, subject).Ok? && SubjectPrefix(s, subject).value <= name
  }

  /** A stable user id without a slash. */
  predicate PlainId(subject: Subject) {
    var id := NonBlank(subject.applicationUserId);
    id.Some? && '/' !in id.value
  }

  /** No name is reached for two subjects whose ids are plain and differ. */
  ghost predicate KeepsApart(s: StorageMapping) {
    forall one, other, name ::
      PlainId(one) && PlainId(other) && Reaches(s, one, name) && Reaches(s, other, name) ==>
        NonBlank(one.applicationUserId) == NonBlank(other.applicationUserId)
  }

  function FirstSlash(s: string): (k: nat)
    requires '/' in s
    ensures k < |s| && s[k] == '/' && '/' !in s[..k]
  {
    if s[0] == '/' then 0
    else
      assert s == [s[0]] + s[1..];
      var k := 1 + FirstSlash(s[1..]);
      assert s[..k] == [s[0]] + s[1..][..k - 1];
      k
  }

  /** The first slash after the id tells where the id ends. */
  lemma SlashEndsId(tail: string, a: string, b: string, rest: string)
    requires '/' in tail && '/' !in a && '/' !in b && |a| <= |b|
    requires a + tail <= rest && b + tail <= rest
    ensures a == b
  {
    var k := FirstSlash(tail);
    assert (a + tail)[|a| + k] == '/' && rest[|a| + k] == (a + tail)[|a| + k];
    assert rest[..|b|] == b && rest[|b|..|b| + |tail|] == tail;
    assert forall i :: 0 <= i < |b| ==> rest[i] == b[i] && b[i] in b;
    assert forall i :: 0 <= i < k ==> rest[|b| + i] == tail[i] && tail[..k][i] in tail[..k];
    assert |a| == |b|;
    assert rest[..|a|] == a;
  }

  /** A subject with a given user id and no other identity. */
  function SubjectWith(id: string): Subject {
    Subject(Some(id), None)
  }

  /** Without a slash after the token, one subject's prefix is the beginning of another's names. */
  lemma OpenTailCollides(s: StorageMapping, head: string, tail: string)
    requires s.prefix == head + TOKEN + tail && '/' !in tail
    requires forall id :: Substitute(s.prefix, id) == head + id + tail
    ensures var one, other := SubjectWith("x"), SubjectWith("x" + tail + "x");
            && PlainId(one) && PlainId(other)
            && NonBlank(one.applicationUserId) != NonBlank(other.applicationUserId)
            && SubjectPrefix(s, other).Ok?
            && forall name :: Reaches(s, other, name) ==> Reaches(s, one, name)
  {
    var a, b := "x", "x" + tail + "x";
    assert TrimStart(a) == a && TrimEnd(a) == a;
    assert TrimStart(b) == b && TrimEnd(b) == b;
    assert Substitute(s.prefix, a) == head + a + tail && Substitute(s.prefix, b) == head + b + tail;
    assert head + b + tail == (head + a + tail) + ("x" + tail);
  }

  /** A name both subjects reach then ends both ids at the same slash. */
  lemma SlashSeparates(s: StorageMapping, head: string, tail: string, one: Subject, other: Subject, name: string)
    requires (forall id :: Substitute(s.prefix, id) == head + id + tail) && '/' in tail
    requires PlainId(one) && PlainId(other) && Reaches(s, one, name) && Reaches(s, other, name)
    ensures NonBlank(one.applicationUserId) == NonBlank(other.applicationUserId)
  {
    var a, b := NonBlank(one.applicationUserId).value, NonBlank(other.applicationUserId).value;
    assert Substitute(s.prefix, a) == head + a + tail && Substitute(s.prefix, b) == head + b + tail;
    var rest := name[|head|..];
    assert (head + a + tail)[|head|..] == a + tail && (head + b + tail)[|head|..] == b + tail;
    if |a| <= |b| {
      SlashEndsId(tail, a, b, rest);
    } else {
      SlashEndsId(tail, b, a, rest);
    }
  }

  /** A validated bucket keeps subjects with plain ids apart if and only if its template has a slash
    * somewhere after the token. */
  lemma KeepsApartExactly(s: StorageMapping)
    returns (head: string, tail: string)
    requires ValidPrefixTemplate(s.prefix)
    ensures s.prefix == head + TOKEN + tail
    ensures KeepsApart(s) <==> '/' in tail
  {
    head, tail := TemplateSplits(s.prefix);
    if '/' in tail {
      forall one, other, name | PlainId(one) && PlainId(other) && Reaches(s, one, name) && Reaches(s, other, name)
        ensures NonBlank(one.applicationUserId) == NonBlank(other.applicationUserId)
      {
        SlashSeparates(s, head, tail, one, other, name);
      }
    } else {
      OpenTailCollides(s, head, tail);
      var one, other := SubjectWith("x"), SubjectWith("x" + tail + "x");
      var name := SubjectPrefix(s, other).value;
      assert Reaches(s, other, name) && Reaches(s, one, name);
    }
  }

  lemma LetterTemplateSplits(t: string, letter: char, id: string)
    requires Alphanumeric(letter) && t == [letter] + TOKEN
    ensures Occurrences(t) == 1 && Substitute(t, id) == [letter] + id + ""
  {
    var rest := t[1..];
    assert rest == TOKEN && rest[|TOKEN|..] == "";
    assert t[0] == letter && TOKEN[0] == '{';
    assert Occurrences(rest) == 1 + Occurrences("");
    assert Substitute(rest, id) == id + Substitute("", id);
  }

  lemma LetterTemplateValid(t: string, letter: char)
    requires Alphanumeric(letter) && t == [letter] + TOKEN
    ensures ValidPrefixTemplate(t)
  {
    LetterTemplateSplits(t, letter, "");
    assert '/' !in TOKEN && '\\' !in TOKEN;
    OneSegmentValid(t);
  }

  /** A single segment that holds the token once is a valid template. */
  lemma OneSegmentValid(t: string)
    requires |t| > 2 && '/' !in t && '\\' !in t && Occurrences(t) == 1
    ensures ValidPrefixTemplate(t)
  {
    SinglePlain(t);
    assert t[0] in t && t[|t| - 1] in t;
    assert t[0] != '/' && t[|t| - 1] != '/';
  }

  /** A mapping such as "u{user_id}" is valid and does not keep subjects apart: everything of user "xx"
    * is reached for user "x". */
  lemma LetterTemplateReachesOthers(s: StorageMapping, letter: char)
    requires Alphanumeric(letter) && s.prefix == [letter] + TOKEN
    ensures ValidPrefixTemplate(s.prefix) && SubjectPrefix(s, SubjectWith("xx")).Ok?
    ensures forall name :: Reaches(s, SubjectWith("xx"), name) ==> Reaches(s, SubjectWith("x"), name)
  {
    LetterTemplateValid(s.prefix, letter);
    forall id
      ensures Substitute(s.prefix, id) == [letter] + id + ""
    {
      LetterTemplateSplits(s.prefix, letter, id);
    }
    assert s.prefix == [letter] + TOKEN + "";
    OpenTailCollides(s, [letter], "");
    assert "x" + "" + "x" == "xx";
  }
}
