/**
 The reader as the C code runs it: one cursor that every function advances in place,
 and containers that grow while their members are read.
 */
module JsonParser {
  import opened CString
  import opened JsonTree
  import opened JsonString
  import opened JsonNumber
  import JsonArray
  import JsonObject
  import Spec = JsonParse
  import JsonPrint

  /** How a round of a container's loop ends. */
  datatype Round = Failed | More | Last

  class Parser {
    const text: bytes
    var pos: nat

    predicate Valid()
      reads this
    {
      pos <= |text|
    }

    /** The cursor on the first character of a text. */
    constructor (text: bytes)
      ensures Valid() && this.text == text && pos == 0
    {
      this.text := text;
      pos := 0;
    }

    /** A reader left value `v` and its cursor as the specification says. */
    ghost predicate Read(v: Option<Json>, result: Option<(Json, nat)>)
      reads this
    {
      match result
      case None => v.None? && Valid()
      case Some((j, end)) => v == Some(j) && pos == end
    }

    /** `SKIP_WHITESPACES`. */
    method SkipWhitespaces()
      requires Valid()
      modifies this
      ensures Valid() && pos == SkipSpaces(text, old(pos))
    {
      while IsSpace(Peek(text, pos))
        invariant Valid() && SkipSpaces(text, pos) == SkipSpaces(text, old(pos))
        decreases |text| - pos
      {
        pos := pos + 1;
      }
    }

    /** `parse_value`. */
    method ParseValue(nesting: nat) returns (v: Option<Json>)
      requires Valid()
      modifies this
      ensures Read(v, Spec.ParseValue(text, old(pos), nesting))
      decreases |text| - pos, 2
    {
      if nesting > MAX_NESTING {
        return None;
      }
      SkipWhitespaces();
      var c := Peek(text, pos);
      if c == LBRACE {
        v := ParseObjectValue(nesting + 1);
      } else if c == LBRACKET {
        v := ParseArrayValue(nesting + 1);
      } else {
        v := ParseScalar(c);
      }
    }

    /** The remaining cases of `parse_value`: strings and words, numbers. */
    method ParseScalar(c: byte) returns (v: Option<Json>)
      requires Valid() && c == Peek(text, pos) && c != LBRACE && c != LBRACKET && !IsSpace(c)
      modifies this
      ensures Read(v, Spec.ParseValue(text, old(pos), 0))
    {
      if c == QUOTE {
        var s := GetQuotedString(text, pos);
        if s.None? {
          return None;
        }
        pos := s.value.1;
        return Some(String(s.value.0));
      } else if c == LETTER_F || c == LETTER_T {
        if Spec.Token(text, pos, JsonPrint.TRUE_TEXT) {
          pos := pos + 4;
          return Some(Boolean(true));
        } else if Spec.Token(text, pos, JsonPrint.FALSE_TEXT) {
          pos := pos + 5;
          return Some(Boolean(false));
        }
        return None;
      } else if c == MINUS || IsDigit(c) {
        v := ParseNumberValue();
      } else if c == LETTER_N {
        if Spec.Token(text, pos, JsonPrint.NULL_TEXT) {
          pos := pos + 4;
          return Some(Null);
        }
        return None;
      } else {
        return None;
      }
    }

    /** `parse_number_value`: the cursor has moved already when an infinity is refused. */
    method ParseNumberValue() returns (v: Option<Json>)
      requires Valid()
      modifies this
      ensures match ParseNumber(text, old(pos))
              case None => v.None?
              case Some((x, end)) => v == Some(Number(x)) && pos == end
      ensures var end := StrToD(text, old(pos)).end;
              pos == if DecimalForm(text[old(pos)..end]) then end else old(pos)
    {
      var number := StrToD(text, pos);
      var decimal := IsDecimal(text, pos, number.end - pos);
      if !decimal {
        return None;
      }
      pos := number.end;
      if number.Foreign? {
        return None;
      }
      return Some(Number(number.x));
    }

    /** A key, a colon and a value, and the new member of the object. */
    method ParseMember(nesting: nat, output: JsonObject.ObjectBuffer) returns (ok: bool)
      requires Valid() && output.Valid()
      modifies this, output, output.names, output.values
      ensures output.Valid()
      ensures output.names != old(output.names) ==> fresh(output.names)
      ensures output.values != old(output.values) ==> fresh(output.values)
      ensures match Spec.ParseMember(text, old(pos), nesting, old(output.Members()))
              case None => !ok && Valid()
              case Some((members, end)) => ok && output.Members() == members && pos == end
      decreases |text| - pos, 1
    {
      hide QuotedString, SkipSpaces, Distinct, Find, Spec.ParseValue;
      var key := GetQuotedString(text, pos);
      if key.None? || StrLen(key.value.0) != |key.value.0| {
        return false;
      }
      pos := key.value.1;
      SkipWhitespaces();
      if Peek(text, pos) != COLON {
        return false;
      }
      pos := pos + 1;
      var value := ParseValue(nesting);
      if value.None? {
        return false;
      }
      ok := output.AddN(key.value.0, value.value);
    }

    /**
     One round of the loop of `parse_object_value`: a member, and the comma behind it if
     there is one. Without a comma the cursor stays on the first character that is no space.
     */
    method MemberRound(nesting: nat, output: JsonObject.ObjectBuffer) returns (r: Round)
      requires Valid() && output.Valid()
      modifies this, output, output.names, output.values
      ensures Valid() && output.Valid()
      ensures output.names != old(output.names) ==> fresh(output.names)
      ensures output.values != old(output.values) ==> fresh(output.values)
      ensures r.Failed? ==> Spec.ParseMembers(text, old(pos), nesting, old(output.Members())) == None
      ensures r.More? ==> pos > old(pos)
                          && Spec.ParseMembers(text, pos, nesting, output.Members())
                          == Spec.ParseMembers(text, old(pos), nesting, old(output.Members()))
      ensures r.Last? ==> pos > old(pos) && SkipSpaces(text, pos) == pos && output.count > 0
                          && Spec.ParseMembers(text, old(pos), nesting, old(output.Members()))
                          == if Peek(text, pos) == RBRACE then Some((Object(output.Members()), pos + 1)) else None
      decreases |text| - pos, 2
    {
      hide SkipSpaces, Distinct, NulFree, Spec.ParseMember;
      var added := ParseMember(nesting, output);
      if !added {
        return Failed;
      }
      SkipWhitespaces();
      if Peek(text, pos) != COMMA {
        SkipSpacesOver(text, pos, pos);
        return Last;
      }
      pos := pos + 1;
      SkipWhitespaces();
      return More;
    }

    /** Behind the loop: the closing brace, and the arrays trimmed to what they hold. */
    method CloseObject(output: JsonObject.ObjectBuffer) returns (v: Option<Json>)
      requires Valid() && output.Valid() && output.count > 0 && SkipSpaces(text, pos) == pos
      modifies this, output
      ensures v == if Peek(text, old(pos)) == RBRACE then Some(Object(old(output.Members()))) else None
      ensures Valid() && (v.Some? ==> pos == old(pos) + 1)
    {
      hide SkipSpaces;
      SkipWhitespaces();
      if Peek(text, pos) != RBRACE {
        return None;
      }
      var trimmed := output.Resize(output.count);
      if !trimmed {
        return None;
      }
      pos := pos + 1;
      return Some(Object(output.Members()));
    }

    /** `parse_object_value`. */
    method ParseObjectValue(nesting: nat) returns (v: Option<Json>)
      requires Valid() && Peek(text, pos) == LBRACE
      modifies this
      ensures Read(v, Spec.ParseObject(text, old(pos), nesting))
      decreases |text| - pos, 1
    {
      hide SkipSpaces, Distinct, NulFree, JsonObject.Zip, Spec.ParseMembers, Spec.ParseMember, Spec.ParseValue;
      var output := new JsonObject.ObjectBuffer();
      pos := pos + 1;
      SkipWhitespaces();
      if Peek(text, pos) == RBRACE {
        pos := pos + 1;
        return Some(Object(output.Members()));
      }
      ghost var result := Spec.ParseMembers(text, pos, nesting, []);
      while Peek(text, pos) != NUL
        invariant old(pos) < pos && Valid()
        invariant output.Valid() && fresh(output)
        invariant output.names != null ==> fresh(output.names)
        invariant output.values != null ==> fresh(output.values)
        invariant Spec.ParseMembers(text, pos, nesting, output.Members()) == result
        decreases |text| - pos
      {
        var round := MemberRound(nesting, output);
        if round.Failed? {
          return None;
        }
        if round.Last? {
          v := CloseObject(output);
          return v;
        }
      }
      Spec.NothingAtTheEnd(text, pos, nesting, output.Members(), []);
      return None;
    }

    /** One round of the loop of `parse_array_value`, left as `MemberRound` leaves the cursor. */
    method ItemRound(nesting: nat, output: JsonArray.ArrayBuffer) returns (r: Round)
      requires Valid() && output.Valid()
      modifies this, output, output.items
      ensures Valid() && output.Valid()
      ensures output.items != old(output.items) ==> fresh(output.items)
      ensures r.Failed? ==> Spec.ParseItems(text, old(pos), nesting, old(output.Items())) == None
      ensures r.More? ==> pos > old(pos)
                          && Spec.ParseItems(text, pos, nesting, output.Items())
                          == Spec.ParseItems(text, old(pos), nesting, old(output.Items()))
      ensures r.Last? ==> pos >= old(pos) && SkipSpaces(text, pos) == pos && output.count > 0
                          && Spec.ParseItems(text, old(pos), nesting, old(output.Items()))
                          == if Peek(text, pos) == RBRACKET then Some((Array(output.Items()), pos + 1)) else None
      decreases |text| - pos, 3
    {
      hide SkipSpaces, Spec.ParseValue, Spec.ParseItems;
      Spec.ItemsRound(text, pos, nesting, output.Items());
      var item := ParseValue(nesting);
      if item.None? {
        return Failed;
      }
      output.Add(item.value);
      SkipWhitespaces();
      if Peek(text, pos) != COMMA {
        SkipSpacesOver(text, pos, pos);
        return Last;
      }
      pos := pos + 1;
      SkipWhitespaces();
      return More;
    }

    /** Behind the loop: the closing bracket, and the array trimmed. */
    method CloseArray(output: JsonArray.ArrayBuffer) returns (v: Option<Json>)
      requires Valid() && output.Valid() && output.count > 0 && SkipSpaces(text, pos) == pos
      modifies this, output
      ensures v == if Peek(text, old(pos)) == RBRACKET then Some(Array(old(output.Items()))) else None
      ensures Valid() && (v.Some? ==> pos == old(pos) + 1)
    {
      hide SkipSpaces;
      SkipWhitespaces();
      if Peek(text, pos) != RBRACKET {
        return None;
      }
      var trimmed := output.Resize(output.count);
      if !trimmed {
        return None;
      }
      pos := pos + 1;
      return Some(Array(output.Items()));
    }

    /** `parse_array_value`. */
    method ParseArrayValue(nesting: nat) returns (v: Option<Json>)
      requires Valid() && Peek(text, pos) == LBRACKET
      modifies this
      ensures Read(v, Spec.ParseArray(text, old(pos), nesting))
      decreases |text| - pos, 1
    {
      hide SkipSpaces, Spec.ParseItems;
      var output := new JsonArray.ArrayBuffer();
      pos := pos + 1;
      SkipWhitespaces();
      if Peek(text, pos) == RBRACKET {
        pos := pos + 1;
        return Some(Array(output.Items()));
      }
      ghost var result := Spec.ParseItems(text, pos, nesting, []);
      while Peek(text, pos) != NUL
        invariant old(pos) < pos && Valid()
        invariant output.Valid() && fresh(output)
        invariant output.items != null ==> fresh(output.items)
        invariant Spec.ParseItems(text, pos, nesting, output.Items()) == result
        decreases |text| - pos
      {
        var round := ItemRound(nesting, output);
        if round.Failed? {
          return None;
        }
        if round.Last? {
          v := CloseArray(output);
          return v;
        }
      }
      Spec.NothingAtTheEnd(text, pos, nesting, [], output.Items());
      return None;
    }
  }

  /** `json_parse_string`: the value at the front of the text, behind a byte order mark if there is one. */
  method ParseString(text: bytes) returns (v: Option<Json>)
    ensures v == Spec.ParseText(text)
    ensures v.Some? ==> WellFormed(v.value, 0)
  {
    var parser := new Parser(text);
    if |text| >= 3 && text[0] == 0xEF && text[1] == 0xBB && text[2] == 0xBF {
      parser.pos := 3;
    }
    v := parser.ParseValue(0);
    if v.Some? {
      Spec.ParseTextIsWellFormed(text);
    }
  }
}
