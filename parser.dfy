/** The parser object: addChar updates its fields in place, the accessors read the field store. */
module Parser {
  import opened JsonTypes
  import opened Decimal
  import opened StateMachine

  class JsonParser {
    var state: State
    var fields: seq<Field>
    /** The field under construction: its name, its type tag and the String its data points to
        while a scalar value is read. */
    var curName: string
    var curType: JsonType
    var curData: string
    /** The array element being read, and the elements read so far for each array kind. */
    var tmpValue: string
    var arrStr: seq<string>
    var arrNum: seq<int>
    var inStr: bool

    /** The object's state as a value of the pure machine. */
    function Snapshot(): Machine
      reads this
    {
      Machine(state, fields, curName, curType, curData, tmpValue, arrStr, arrNum, inStr)
    }

    ghost predicate Valid()
      reads this
    {
      StateMachine.Valid(Snapshot())
    }

    /** A new parser is between fields with an empty store. */
    constructor ()
      ensures Snapshot() == Init() && Valid()
      ensures state == BetweenFields && fields == [] && NumFields() == 0
    {
      state := BetweenFields;
      fields := [];
      curName := [];
      curType := JsonString;
      curData := [];
      tmpValue := [];
      arrStr := [];
      arrNum := [];
      inStr := false;
      InitValid();
    }

    /** addField: appends a finished field to the store; nothing else changes. */
    method AddField(f: Field)
      modifies this`fields
      ensures fields == old(fields) + [f]
    {
      fields := fields + [f];
    }

    /** appendToCurrentString: adds c to the String the current field's data holds. */
    method AppendToCurrentString(c: char)
      modifies this`curData
      ensures curData == old(curData) + [c]
    {
      curData := curData + [c];
    }

    /** switchCurrentStringToNumber: the number the current field's digits stand for. On the
        digit strings addChar hands it, the conversion as written gives the intended value. */
    method SwitchCurrentStringToNumber() returns (n: int)
      ensures n == Converted(curData)
      ensures AllDigits(curData) ==> n == Value(curData) == Horner(curData) && n >= 0
    {
      n := StringToNumber(curData);
      if AllDigits(curData) {
        ConvertedDigits(curData);
      }
    }

    /** addChar: consumes one character. Its effect is exactly Step: the store grows by at most one
        field at the end, and what was stored before is left as it was. */
    method AddChar(c: char)
      requires Valid()
      modifies this
      ensures Snapshot() == Step(old(Snapshot()), c)
      ensures Valid()
      ensures old(fields) <= fields && |fields| <= |old(fields)| + 1
    {
      ghost var before := Snapshot();
      StepValid(before, c);
      if c == ' ' && state != FieldValueString {
        return;
      }
      if state == State.BetweenFields || state == State.FieldName || state == State.BetweenFieldNameValue {
        ReadNameOrGap(c);
      } else if state == State.FieldValueString || state == State.FieldValueNumber {
        ReadScalarValue(c);
      } else if state == State.ArrayStart {
        OpenArray(c);
      } else if state == State.ArrayString {
        ReadStringArray(c);
      } else {
        assert state == State.ArrayNumber;
        ReadNumberArray(c);
      }
    }

    /** The BetweenFields, FieldName and BetweenFieldNameValue cases of addChar. */
    method ReadNameOrGap(c: char)
      requires state == State.BetweenFields || state == State.FieldName || state == State.BetweenFieldNameValue
      requires c != ' '
      modifies this
      ensures Snapshot() == Step(old(Snapshot()), c)
    {
      if state == State.BetweenFields {
        if c == '"' {
          curName, curData := [], [];
          state := State.FieldName;
        }
      } else if state == State.FieldName {
        if c == '"' {
          state := BetweenFieldNameValue;
        } else {
          curName := curName + [c];
        }
      } else {
        if c == '"' {
          curType := JsonString;
          curData := [];
          state := FieldValueString;
        } else if IsDigit(c) {
          curType := JsonNumber;
          curData := [];
          AppendToCurrentString(c);
          state := FieldValueNumber;
        } else if c == '[' {
          state := ArrayStart;
        }
      }
    }

    /** The ArrayStart case of addChar. */
    method OpenArray(c: char)
      requires state == State.ArrayStart && c != ' '
      modifies this
      ensures Snapshot() == Step(old(Snapshot()), c)
    {
      if c == '"' {
        state := ArrayString;
        curType := JsonStringArray;
        tmpValue := [];
        arrStr := [];
        inStr := true;
      } else if IsDigit(c) {
        state := ArrayNumber;
        curType := JsonNumberArray;
        tmpValue := [c];
        arrNum := [];
      }
    }

    /** The FieldValueString and FieldValueNumber cases of addChar. */
    method ReadScalarValue(c: char)
      requires state == State.FieldValueString || (state == State.FieldValueNumber && c != ' ')
      requires state == State.FieldValueNumber ==> AllDigits(curData)
      modifies this
      ensures Snapshot() == Step(old(Snapshot()), c)
    {
      if state == State.FieldValueString {
        if c == '"' {
          AddField(Field(curName, curType, Str(curData)));
          state := BetweenFields;
        } else {
          AppendToCurrentString(c);
        }
      } else {
        if c == ',' || c == '}' {
          var n := SwitchCurrentStringToNumber();
          AddField(Field(curName, curType, Num(n)));
          state := BetweenFields;
        } else if IsDigit(c) {
          AppendToCurrentString(c);
        }
      }
    }

    /** The ArrayString case of addChar. */
    method ReadStringArray(c: char)
      requires state == State.ArrayString && c != ' '
      modifies this
      ensures Snapshot() == Step(old(Snapshot()), c)
    {
      if c == ',' {
        arrStr := arrStr + [tmpValue];
        tmpValue := [];
      } else if c == ']' {
        arrStr := arrStr + [tmpValue];
        AddField(Field(curName, curType, StrArr(arrStr)));
        state := BetweenFields;
      } else if c != '"' && inStr {
        tmpValue := tmpValue + [c];
      } else if c == '"' {
        inStr := !inStr;
      }
    }

    /** The ArrayNumber case of addChar. */
    method ReadNumberArray(c: char)
      requires state == State.ArrayNumber && c != ' ' && AllDigits(tmpValue)
      modifies this
      ensures Snapshot() == Step(old(Snapshot()), c)
    {
      if c == ',' {
        var n := StringToNumber(tmpValue);
        ConvertedDigits(tmpValue);
        arrNum := arrNum + [n];
        tmpValue := [];
      } else if c == ']' {
        var n := StringToNumber(tmpValue);
        ConvertedDigits(tmpValue);
        arrNum := arrNum + [n];
        AddField(Field(curName, curType, NumArr(arrNum)));
        state := BetweenFields;
      } else if IsDigit(c) {
        tmpValue := tmpValue + [c];
      }
    }

    /** numFields: the number of committed fields. */
    function NumFields(): (n: nat)
      reads this
      ensures n == |fields|
    {
      |fields|
    }

    /** fieldName: the name of field i, which never holds a space or a quote. */
    function FieldName(i: int): (name: string)
      reads this
      requires Valid() && 0 <= i < |fields|
      ensures name == fields[i].name
      ensures ' ' !in name && '"' !in name
    {
      fields[i].name
    }

    /** fieldType: the type tag of field i, which always agrees with the payload stored. */
    function FieldType(i: int): (t: JsonType)
      reads this
      requires Valid() && 0 <= i < |fields|
      ensures t == KindOf(fields[i].data)
    {
      fields[i].fieldType
    }

    /** getFieldString: the text of a string field (undefined on other fields, hence the requires). */
    function GetFieldString(i: int): (s: string)
      reads this
      requires Valid() && 0 <= i < |fields| && fields[i].fieldType == JsonString
      ensures fields[i].data == Str(s)
      ensures '"' !in s
    {
      fields[i].data.s
    }

    /** getFieldNumber: the value of a number field, never negative. */
    function GetFieldNumber(i: int): (n: int)
      reads this
      requires Valid() && 0 <= i < |fields| && fields[i].fieldType == JsonNumber
      ensures fields[i].data == Num(n)
      ensures n >= 0
    {
      fields[i].data.n
    }

    /** getArrayFieldLength: the element count of an array field, 0 for a scalar; an array field
        always has at least one element. */
    function GetArrayFieldLength(i: int): (len: int)
      reads this
      requires Valid() && 0 <= i < |fields|
      ensures fields[i].data.StrArr? ==> len == |fields[i].data.strs| && len >= 1
      ensures fields[i].data.NumArr? ==> len == |fields[i].data.nums| && len >= 1
      ensures fields[i].data.Str? || fields[i].data.Num? ==> len == 0
    {
      match fields[i].fieldType
      case JsonStringArray => |fields[i].data.strs|
      case JsonNumberArray => |fields[i].data.nums|
      case _ => 0
    }

    /** getFieldStringArray: a new array holding a copy of the elements of a string-array field. */
    method GetFieldStringArray(i: int) returns (a: array<string>)
      requires Valid() && 0 <= i < |fields| && fields[i].fieldType == JsonStringArray
      ensures fresh(a)
      ensures a.Length == GetArrayFieldLength(i)
      ensures fields[i].data == StrArr(a[..])
    {
      var data := fields[i].data.strs;
      a := new string[|data|];
      var k := 0;
      while k < |data|
        invariant 0 <= k <= |data|
        invariant a[..k] == data[..k]
      {
        a[k] := data[k];
        k := k + 1;
      }
      assert a[..] == a[..k];
    }

    /** getFieldNumberArray: a new array holding a copy of the elements of a number-array field. */
    method GetFieldNumberArray(i: int) returns (a: array<int>)
      requires Valid() && 0 <= i < |fields| && fields[i].fieldType == JsonNumberArray
      ensures fresh(a)
      ensures a.Length == GetArrayFieldLength(i)
      ensures fields[i].data == NumArr(a[..])
      ensures forall k :: 0 <= k < a.Length ==> a[k] >= 0
    {
      var data := fields[i].data.nums;
      a := new int[|data|];
      var k := 0;
      while k < |data|
        invariant 0 <= k <= |data|
        invariant a[..k] == data[..k]
      {
        a[k] := data[k];
        k := k + 1;
      }
      assert a[..] == a[..k];
    }
  }
}
