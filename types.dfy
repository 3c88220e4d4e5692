/** The type mapper: how a MySQL column is described to an ODBC application
    (`unireg_to_sql_datatype`), which C type its values are fetched as by default
    (`unireg_to_c_datatype`, `default_c_type`), and how many bytes a bound C type
    takes (`bind_length`). */
module TypeMapper {
  import opened Common
  import opened Codes

  /** The column metadata the mapper reads: the MySQL type code, the declared and
      the longest observed length, the unsigned flag, the number of decimals, and
      whether the client library classes the column as binary or as numeric. */
  datatype Field = Field(fieldType: int, length: nat, maxLength: nat, unsigned: bool,
                         decimals: nat, binary: bool, numeric: bool)

  /** The connection settings the mapper consults: the `FLAG_NO_BIGINT` option, the
      environment's ODBC version, and the maximum bytes per character of the
      connection's character set (`None` when the connection has none). */
  datatype Session = Session(noBigint: bool, odbcVer: int, mbMaxLen: Option<nat>)

  /** A character set encodes every character in at least one byte. */
  predicate ValidSession(s: Session)
  {
    s.mbMaxLen.Some? ==> s.mbMaxLen.value >= 1
  }

  /** What `unireg_to_sql_datatype` hands back: the SQL type it returns, the
      transfer length, precision and display size it stores, and the type name it
      writes into the caller's buffer (`None` where it writes none). */
  datatype ColumnInfo = ColumnInfo(sqlType: int, transferLength: nat, precision: nat,
                                   displaySize: nat, typeName: Option<string>)

  /** The MySQL types the mapper has a case for. */
  predicate KnownType(t: int)
  {
    t in {MysqlBit, MysqlDecimal, MysqlNewDecimal, MysqlTiny, MysqlShort, MysqlInt24,
          MysqlLong, MysqlLongLong, MysqlFloat, MysqlDouble, MysqlNull, MysqlYear,
          MysqlTimestamp, MysqlDatetime, MysqlNewDate, MysqlDate, MysqlTime, MysqlString,
          MysqlVarchar, MysqlVarString, MysqlTinyBlob, MysqlBlob, MysqlMediumBlob,
          MysqlLongBlob, MysqlEnum, MysqlSet, MysqlGeometry}
  }

  /** The four blob (or text) types. */
  predicate BlobType(t: int)
  {
    t in {MysqlTinyBlob, MysqlBlob, MysqlMediumBlob, MysqlLongBlob}
  }

  /** The larger of the declared and the observed length. */
  function MaxLen(f: Field): nat
  {
    Max(f.length, f.maxLength)
  }

  /** `unsigned long` subtraction, wrapping modulo 2^64. */
  function ULongSub(a: nat, b: nat): (r: nat)
    ensures r < ULongModulus
    ensures b <= a < ULongModulus ==> r == a - b
  {
    (a - b) % ULongModulus
  }

  /** The characters a character column holds: its declared length in bytes over
      the character set's maximum bytes per character, or `fallback` when the
      declared length is 0. */
  function CharLength(s: Session, f: Field, fallback: nat): nat
    requires ValidSession(s)
  {
    if f.length == 0 then fallback
    else if s.mbMaxLen.Some? then f.length / s.mbMaxLen.value
    else f.length
  }

  /** A type name with " unsigned" appended for an unsigned column. */
  function Signed(name: string, f: Field): string
  {
    if f.unsigned then name + " unsigned" else name
  }

  /** The same value as transfer length, precision and display size. */
  function Sized(sqlType: int, n: nat, name: string): ColumnInfo
  {
    ColumnInfo(sqlType, n, n, n, Some(name))
  }

  /** `unireg_to_sql_datatype`: all three lengths start as the larger of the declared
      and observed length; each type then overrides what it knows. The type is 0,
      which no SQL type has, exactly for a MySQL type without a case, and exactly
      then no name is written; precision and display size agree except for BIGINT. */
  function UniregToSqlDatatype(s: Session, f: Field): (r: ColumnInfo)
    requires ValidSession(s)
    ensures r.sqlType == 0 <==> !KnownType(f.fieldType)
    ensures r.typeName.None? <==> r.sqlType == 0
    ensures r.precision == r.displaySize || f.fieldType == MysqlLongLong
  {
    var m := MaxLen(f);
    var t := f.fieldType;
    var odbc3 := s.odbcVer == SqlOvOdbc3;
    if t == MysqlBit then ColumnInfo(SqlBit, 1, m, m, Some("bit"))
    else if t == MysqlDecimal || t == MysqlNewDecimal then
      var d := ULongSub(ULongSub(m, if f.unsigned then 0 else 1), if f.decimals != 0 then 1 else 0);
      ColumnInfo(SqlDecimal, m, d, d, Some("decimal"))
    else if t == MysqlTiny then
      if f.numeric then ColumnInfo(SqlTinyint, 1, m, m, Some(Signed("tinyint", f)))
      else ColumnInfo(SqlChar, 1, m, m, Some(Signed("char", f)))
    else if t == MysqlShort then ColumnInfo(SqlSmallint, 2, m, m, Some(Signed("smallint", f)))
    else if t == MysqlInt24 then ColumnInfo(SqlInteger, 4, m, m, Some(Signed("mediumint", f)))
    else if t == MysqlLong then ColumnInfo(SqlInteger, 4, m, m, Some(Signed("integer", f)))
    else if t == MysqlLongLong then
      if s.noBigint then ColumnInfo(SqlInteger, 20, m, m, Some(Signed("bigint", f)))
      else if f.unsigned then ColumnInfo(SqlBigint, 20, 20, m, Some(Signed("bigint", f)))
      else ColumnInfo(SqlBigint, 19, 19, m, Some(Signed("bigint", f)))
    else if t == MysqlFloat then ColumnInfo(SqlReal, 4, m, m, Some(Signed("float", f)))
    else if t == MysqlDouble then ColumnInfo(SqlDouble, 8, m, m, Some(Signed("double", f)))
    else if t == MysqlNull then ColumnInfo(SqlVarchar, m, m, m, Some("null"))
    else if t == MysqlYear then ColumnInfo(SqlSmallint, 2, m, m, Some("year"))
    else if t == MysqlTimestamp || t == MysqlDatetime then
      ColumnInfo(if odbc3 then SqlTypeTimestamp else SqlTimestamp, 16, 19, 19,
                 Some(if t == MysqlTimestamp then "timestamp" else "datetime"))
    else if t == MysqlNewDate || t == MysqlDate then
      ColumnInfo(if odbc3 then SqlTypeDate else SqlDate, 6, 10, 10, Some("date"))
    else if t == MysqlTime then
      ColumnInfo(if odbc3 then SqlTypeTime else SqlTime, 6, 8, 8, Some("time"))
    else if t == MysqlString then
      if f.binary then ColumnInfo(SqlBinary, m, m, m, Some("binary"))
      else Sized(SqlChar, CharLength(s, f, 255), "char")
    else if t == MysqlVarchar || t == MysqlVarString then
      Sized(SqlVarchar, CharLength(s, f, 255), "varchar")
    else if t == MysqlTinyBlob then
      Sized(if f.binary then SqlLongVarbinary else SqlLongVarchar, CharLength(s, f, 255),
            if f.binary then "tinyblob" else "tinytext")
    else if t == MysqlBlob then
      Sized(if f.binary then SqlLongVarbinary else SqlLongVarchar, CharLength(s, f, 65535),
            if f.binary then "blob" else "text")
    else if t == MysqlMediumBlob then
      Sized(if f.binary then SqlLongVarbinary else SqlLongVarchar, CharLength(s, f, 0xFF_FFFF),
            if f.binary then "mediumblob" else "mediumtext")
    else if t == MysqlLongBlob then
      Sized(if f.binary then SqlLongVarbinary else SqlLongVarchar, CharLength(s, f, IntMax32),
            if f.binary then "longblob" else "longtext")
    else if t == MysqlEnum then ColumnInfo(SqlChar, m, m, m, Some("enum"))
    else if t == MysqlSet then ColumnInfo(SqlChar, m, m, m, Some("set"))
    else if t == MysqlGeometry then ColumnInfo(SqlLongVarbinary, m, m, m, Some("blob"))
    else ColumnInfo(0, m, m, m, None)
  }

  /** `unireg_to_c_datatype`: the C type a column's values are fetched as; never
      `SQL_C_DEFAULT`, binary exactly for the blob types, and text for BIGINT. */
  function UniregToCDatatype(f: Field): (c: int)
    ensures c != SqlCDefault
    ensures c in {SqlCBit, SqlCTinyint, SqlCShort, SqlCLong, SqlCFloat, SqlCDouble,
                  SqlCTimestamp, SqlCDate, SqlCTime, SqlCBinary, SqlCChar}
    ensures c == SqlCBinary <==> BlobType(f.fieldType)
    ensures f.fieldType == MysqlLongLong ==> c == SqlCChar
  {
    var t := f.fieldType;
    if t == MysqlBit then SqlCBit
    else if t == MysqlTiny then SqlCTinyint
    else if t == MysqlYear || t == MysqlShort then SqlCShort
    else if t == MysqlInt24 || t == MysqlLong then SqlCLong
    else if t == MysqlFloat then SqlCFloat
    else if t == MysqlDouble then SqlCDouble
    else if t == MysqlTimestamp || t == MysqlDatetime then SqlCTimestamp
    else if t == MysqlNewDate || t == MysqlDate then SqlCDate
    else if t == MysqlTime then SqlCTime
    else if BlobType(t) then SqlCBinary
    else SqlCChar  // MYSQL_TYPE_LONGLONG among the rest: returned as text
  }

  /** `default_c_type`: the C type an application gets for `SQL_C_DEFAULT`; never
      `SQL_C_DEFAULT` itself, and always character data, binary data or a type
      `bind_length` gives a fixed size. */
  function DefaultCType(sqlType: int): (c: int)
    ensures c != SqlCDefault
    ensures c in {SqlCChar, SqlCBinary} || 1 <= BindLength(c, 0) <= SizeofTimestampStruct
  {
    if sqlType == SqlBigint then SqlCSBigint
    else if sqlType == SqlBit then SqlCBit
    else if sqlType == SqlTinyint then SqlCTinyint
    else if sqlType == SqlSmallint then SqlCShort
    else if sqlType == SqlInteger then SqlCLong
    else if sqlType == SqlReal || sqlType == SqlFloat then SqlCFloat
    else if sqlType == SqlDouble then SqlCDouble
    else if sqlType in {SqlBinary, SqlVarbinary, SqlLongVarbinary} then SqlCBinary
    else if sqlType == SqlDate || sqlType == SqlTypeDate then SqlCDate
    else if sqlType == SqlTime || sqlType == SqlTypeTime then SqlCTime
    else if sqlType == SqlTimestamp || sqlType == SqlTypeTimestamp then SqlCTimestamp
    else SqlCChar
  }

  /** The C types with a size of their own: the integer, floating-point, date,
      time and timestamp types. */
  predicate FixedCType(cType: int)
  {
    cType in {SqlCBit, SqlCTinyint, SqlCSTinyint, SqlCUTinyint, SqlCShort, SqlCSShort,
              SqlCUShort, SqlCLong, SqlCSLong, SqlCULong, SqlCFloat, SqlCDouble, SqlCDate,
              SqlCTypeDate, SqlCTime, SqlCTypeTime, SqlCTimestamp, SqlCTypeTimestamp,
              SqlCSBigint, SqlCUBigint}
  }

  /** `bind_length`: the bytes a value of a C type occupies; for a C type without a
      fixed size (character and binary data) the length the caller gives. */
  function BindLength(cType: int, length: nat): (n: nat)
    ensures FixedCType(cType) ==> 1 <= n <= SizeofTimestampStruct
    ensures !FixedCType(cType) ==> n == length
  {
    if cType in {SqlCBit, SqlCTinyint, SqlCSTinyint, SqlCUTinyint} then 1
    else if cType in {SqlCShort, SqlCSShort, SqlCUShort} then 2
    else if cType in {SqlCLong, SqlCSLong, SqlCULong} then SizeofSqlInteger
    else if cType == SqlCFloat then SizeofFloat
    else if cType == SqlCDouble then SizeofDouble
    else if cType == SqlCDate || cType == SqlCTypeDate then SizeofDateStruct
    else if cType == SqlCTime || cType == SqlCTypeTime then SizeofTimeStruct
    else if cType == SqlCTimestamp || cType == SqlCTypeTimestamp then SizeofTimestampStruct
    else if cType == SqlCSBigint || cType == SqlCUBigint then SizeofLongLong
    else length
  }

  /** The number of decimal digits of `n`. */
  function DigitCount(n: nat): (d: nat)
    ensures d >= 1
  {
    if n < 10 then 1 else 1 + DigitCount(n / 10)
  }

  /** Display size + a sign position + a decimal point = the column width, for a
      fixed-point column: the display size counts digits only, and the precision
      equals it. */
  lemma DecimalDisplay(s: Session, f: Field)
    requires ValidSession(s) && (f.fieldType == MysqlDecimal || f.fieldType == MysqlNewDecimal)
    ensures var r := UniregToSqlDatatype(s, f);
      && r.sqlType == SqlDecimal && r.precision == r.displaySize && r.transferLength == MaxLen(f)
      && (2 <= MaxLen(f) < ULongModulus ==>
            r.displaySize + (if f.unsigned then 0 else 1) + (if f.decimals != 0 then 1 else 0) == MaxLen(f))
  {
  }

  /** A signed DECIMAL(10, 2) column, which the server reports with length 12 (ten
      digits, a sign and a decimal point): 12 - 1 for the sign - 1 for the decimal
      point = 10 digits. */
  lemma SignedDecimalTenTwo(s: Session)
    requires ValidSession(s)
    ensures var r := UniregToSqlDatatype(s, Field(MysqlNewDecimal, 12, 0, false, 2, false, true));
      r.displaySize == 10 && r.precision == 10
  {
    DecimalDisplay(s, Field(MysqlNewDecimal, 12, 0, false, 2, false, true));
  }

  /** An ODBC 3 application sees the new date and time type codes, an ODBC 2 one the
      old ones; precision and display size are the widths of the text forms
      "YYYY-MM-DD hh:mm:ss", "YYYY-MM-DD" and "hh:mm:ss", and the transfer length
      is the size of the C structure the column is fetched into by default. */
  lemma TemporalRule(s: Session, f: Field)
    requires ValidSession(s)
    requires f.fieldType in {MysqlTimestamp, MysqlDatetime, MysqlDate, MysqlNewDate, MysqlTime}
    ensures var r := UniregToSqlDatatype(s, f);
      var t := f.fieldType;
      && r.transferLength == BindLength(UniregToCDatatype(f), 0)
      && r.precision == r.displaySize
      && (t == MysqlTimestamp || t == MysqlDatetime ==>
            && r.displaySize == |"YYYY-MM-DD hh:mm:ss"|
            && (r.sqlType == SqlTypeTimestamp <==> s.odbcVer == SqlOvOdbc3)
            && (r.sqlType == SqlTimestamp <==> s.odbcVer != SqlOvOdbc3))
      && (t == MysqlDate || t == MysqlNewDate ==>
            && r.displaySize == |"YYYY-MM-DD"|
            && (r.sqlType == SqlTypeDate <==> s.odbcVer == SqlOvOdbc3)
            && (r.sqlType == SqlDate <==> s.odbcVer != SqlOvOdbc3))
      && (t == MysqlTime ==>
            && r.displaySize == |"hh:mm:ss"|
            && (r.sqlType == SqlTypeTime <==> s.odbcVer == SqlOvOdbc3)
            && (r.sqlType == SqlTime <==> s.odbcVer != SqlOvOdbc3))
  {
  }

  /** A BIGINT column is an `SQL_BIGINT` whose precision is the number of digits of
      the largest value of its type, 2^63 - 1 or 2^64 - 1; with `FLAG_NO_BIGINT` it
      is described as an `SQL_INTEGER` instead. Either way its values are fetched
      as text. */
  lemma BigintRule(s: Session, f: Field)
    requires ValidSession(s) && f.fieldType == MysqlLongLong
    ensures var r := UniregToSqlDatatype(s, f);
      && UniregToCDatatype(f) == SqlCChar
      && (s.noBigint ==> r.sqlType == SqlInteger && r.precision == MaxLen(f))
      && (!s.noBigint ==>
            && r.sqlType == SqlBigint && r.transferLength == r.precision
            && r.precision == DigitCount(if f.unsigned then ULongModulus - 1 else ULongModulus / 2 - 1))
  {
    if !s.noBigint {
      Digits64();
    }
  }

  /** 2^63 - 1 has 19 decimal digits, 2^64 - 1 has 20. */
  lemma Digits64()
    ensures DigitCount(ULongModulus / 2 - 1) == 19
    ensures DigitCount(ULongModulus - 1) == 20
  {
    assert DigitCount(9) == 1;
    assert DigitCount(92) == 2;
    assert DigitCount(922) == 3;
    assert DigitCount(9223) == 4;
    assert DigitCount(92233) == 5;
    assert DigitCount(922337) == 6;
    assert DigitCount(9223372) == 7;
    assert DigitCount(92233720) == 8;
    assert DigitCount(922337203) == 9;
    assert DigitCount(9223372036) == 10;
    assert DigitCount(92233720368) == 11;
    assert DigitCount(922337203685) == 12;
    assert DigitCount(9223372036854) == 13;
    assert DigitCount(92233720368547) == 14;
    assert DigitCount(922337203685477) == 15;
    assert DigitCount(9223372036854775) == 16;
    assert DigitCount(92233720368547758) == 17;
    assert DigitCount(922337203685477580) == 18;
    assert DigitCount(9223372036854775807) == 19;
    assert DigitCount(1) == 1;
    assert DigitCount(18) == 2;
    assert DigitCount(184) == 3;
    assert DigitCount(1844) == 4;
    assert DigitCount(18446) == 5;
    assert DigitCount(184467) == 6;
    assert DigitCount(1844674) == 7;
    assert DigitCount(18446744) == 8;
    assert DigitCount(184467440) == 9;
    assert DigitCount(1844674407) == 10;
    assert DigitCount(18446744073) == 11;
    assert DigitCount(184467440737) == 12;
    assert DigitCount(1844674407370) == 13;
    assert DigitCount(18446744073709) == 14;
    assert DigitCount(184467440737095) == 15;
    assert DigitCount(1844674407370955) == 16;
    assert DigitCount(18446744073709551) == 17;
    assert DigitCount(184467440737095516) == 18;
    assert DigitCount(1844674407370955161) == 19;
    assert DigitCount(18446744073709551615) == 20;
  }

  /** The fixed-size numeric and temporal types: the transfer length is exactly the
      bytes `bind_length` gives the C type the column is fetched as. */
  lemma FixedSizeTransfer(s: Session, f: Field)
    requires ValidSession(s)
    requires f.fieldType in {MysqlBit, MysqlTiny, MysqlShort, MysqlInt24, MysqlLong, MysqlFloat,
                             MysqlDouble, MysqlYear, MysqlTimestamp, MysqlDatetime, MysqlDate,
                             MysqlNewDate, MysqlTime}
    ensures UniregToSqlDatatype(s, f).transferLength == BindLength(UniregToCDatatype(f), 0) > 0
  {
  }

  /** Character and blob columns describe the same size as transfer length,
      precision and display size: the characters the declared bytes hold, which is
      the most whose longest encoding fits; with no declared length, the type's own
      maximum (at most `INT_MAX32`). Blobs are binary or long character data. */
  lemma CharSizing(s: Session, f: Field)
    requires ValidSession(s)
    requires (f.fieldType == MysqlString && !f.binary) || f.fieldType in {MysqlVarchar, MysqlVarString}
             || BlobType(f.fieldType)
    ensures var r := UniregToSqlDatatype(s, f);
      var n := r.displaySize;
      && r.transferLength == n && r.precision == n
      && (f.length != 0 && s.mbMaxLen.Some? ==>
            n * s.mbMaxLen.value <= f.length < (n + 1) * s.mbMaxLen.value)
      && (f.length != 0 && s.mbMaxLen.None? ==> n == f.length)
      && (f.length == 0 ==>
            && (f.fieldType in {MysqlString, MysqlVarchar, MysqlVarString, MysqlTinyBlob} ==> n == 255)
            && (f.fieldType == MysqlBlob ==> n == 65535)
            && (f.fieldType == MysqlMediumBlob ==> n == 0xFF_FFFF)
            && (f.fieldType == MysqlLongBlob ==> n == IntMax32))
      && (BlobType(f.fieldType) ==>
            && (r.sqlType == SqlLongVarbinary <==> f.binary)
            && (r.sqlType == SqlLongVarchar <==> !f.binary))
  {
    if f.length != 0 && s.mbMaxLen.Some? {
      var k := s.mbMaxLen.value;
      assert CharLength(s, f, 0) == f.length / k;
    }
  }

  /** For a MySQL type it has no case for, the mapper leaves all three lengths at
      the larger of declared and observed length. */
  lemma UnknownType(s: Session, f: Field)
    requires ValidSession(s) && !KnownType(f.fieldType)
    ensures var r := UniregToSqlDatatype(s, f);
      r.transferLength == MaxLen(f) && r.precision == MaxLen(f) && r.displaySize == MaxLen(f)
  {
  }

  /** An integer or floating-point type name says " unsigned" exactly for an
      unsigned column. */
  lemma UnsignedInName(s: Session, f: Field)
    requires ValidSession(s)
    requires f.fieldType in {MysqlTiny, MysqlShort, MysqlInt24, MysqlLong, MysqlLongLong,
                             MysqlFloat, MysqlDouble}
    ensures var name := UniregToSqlDatatype(s, f).typeName;
      && name.Some?
      && (f.unsigned <==> |name.value| >= 9 && name.value[|name.value| - 9..] == " unsigned")
  {
    var name := UniregToSqlDatatype(s, f).typeName.value;
    if f.unsigned {
      assert name[|name| - 9..] == " unsigned";
    } else if |name| >= 9 {
      assert name[|name| - 9] != ' ';
    }
  }

  /** Where the C type a column's values are fetched as is the default C type of the
      SQL type it is described with, and where not: BIGINT is fetched as text, a
      non-numeric TINYINT, a BINARY string, a text blob and a geometry are each
      fetched as something other than their SQL type's default. */
  lemma DefaultMatchesFetchType(s: Session, f: Field)
    requires ValidSession(s)
    ensures DefaultCType(UniregToSqlDatatype(s, f).sqlType) == UniregToCDatatype(f) <==>
      !(|| f.fieldType == MysqlLongLong
        || f.fieldType == MysqlGeometry
        || (f.fieldType == MysqlTiny && !f.numeric)
        || (f.fieldType == MysqlString && f.binary)
        || (BlobType(f.fieldType) && !f.binary))
  {
    var t := f.fieldType;
    var r := UniregToSqlDatatype(s, f);
    if BlobType(t) {
      assert r.sqlType == (if f.binary then SqlLongVarbinary else SqlLongVarchar);
    } else if t in {MysqlTimestamp, MysqlDatetime, MysqlDate, MysqlNewDate, MysqlTime} {
      TemporalRule(s, f);
    } else if !KnownType(t) {
      UnknownType(s, f);
    }
  }

  /** `bind_length` gives a fixed size to every C type a column can be fetched as
      except character and binary data, whose length the caller supplies. */
  lemma FetchTypeSize(f: Field, length: nat)
    ensures var c := UniregToCDatatype(f);
      && (c in {SqlCChar, SqlCBinary} ==> BindLength(c, length) == length)
      && (c !in {SqlCChar, SqlCBinary} ==>
            BindLength(c, length) == BindLength(c, 0) && 1 <= BindLength(c, 0) <= SizeofTimestampStruct)
  {
  }

  /** The size `bind_length` gives the default C type of an SQL type does not
      depend on the length the caller passes, unless that type is character or
      binary data. */
  lemma DefaultTypeSize(sqlType: int, length: nat)
    ensures var c := DefaultCType(sqlType);
      c !in {SqlCChar, SqlCBinary} ==> BindLength(c, length) == BindLength(c, 0)
  {
  }
}
