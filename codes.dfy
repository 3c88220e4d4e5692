/** The type codes the driver exchanges: MySQL column types as the client library
    reports them, ODBC SQL data types, and ODBC C data types, with the values of
    the ODBC headers and of the MySQL client headers. */
module Codes {
  // MySQL column types (`enum_field_types`).
  const MysqlDecimal: int := 0
  const MysqlTiny: int := 1
  const MysqlShort: int := 2
  const MysqlLong: int := 3
  const MysqlFloat: int := 4
  const MysqlDouble: int := 5
  const MysqlNull: int := 6
  const MysqlTimestamp: int := 7
  const MysqlLongLong: int := 8
  const MysqlInt24: int := 9
  const MysqlDate: int := 10
  const MysqlTime: int := 11
  const MysqlDatetime: int := 12
  const MysqlYear: int := 13
  const MysqlNewDate: int := 14
  const MysqlVarchar: int := 15
  const MysqlBit: int := 16
  const MysqlNewDecimal: int := 246
  const MysqlEnum: int := 247
  const MysqlSet: int := 248
  const MysqlTinyBlob: int := 249
  const MysqlMediumBlob: int := 250
  const MysqlLongBlob: int := 251
  const MysqlBlob: int := 252
  const MysqlVarString: int := 253
  const MysqlString: int := 254
  const MysqlGeometry: int := 255

  // ODBC SQL data types.
  const SqlChar: int := 1
  const SqlNumeric: int := 2
  const SqlDecimal: int := 3
  const SqlInteger: int := 4
  const SqlSmallint: int := 5
  const SqlFloat: int := 6
  const SqlReal: int := 7
  const SqlDouble: int := 8
  const SqlDate: int := 9
  const SqlTime: int := 10
  const SqlTimestamp: int := 11
  const SqlVarchar: int := 12
  const SqlTypeDate: int := 91
  const SqlTypeTime: int := 92
  const SqlTypeTimestamp: int := 93
  const SqlLongVarchar: int := -1
  const SqlBinary: int := -2
  const SqlVarbinary: int := -3
  const SqlLongVarbinary: int := -4
  const SqlBigint: int := -5
  const SqlTinyint: int := -6
  const SqlBit: int := -7

  // ODBC C data types; the signed and unsigned ones are offsets from the base type.
  const SignedOffset: int := -20
  const UnsignedOffset: int := -22
  const SqlCChar: int := SqlChar
  const SqlCLong: int := SqlInteger
  const SqlCShort: int := SqlSmallint
  const SqlCFloat: int := SqlReal
  const SqlCDouble: int := SqlDouble
  const SqlCDate: int := SqlDate
  const SqlCTime: int := SqlTime
  const SqlCTimestamp: int := SqlTimestamp
  const SqlCTypeDate: int := SqlTypeDate
  const SqlCTypeTime: int := SqlTypeTime
  const SqlCTypeTimestamp: int := SqlTypeTimestamp
  const SqlCBinary: int := SqlBinary
  const SqlCBit: int := SqlBit
  const SqlCTinyint: int := SqlTinyint
  const SqlCSLong: int := SqlCLong + SignedOffset
  const SqlCSShort: int := SqlCShort + SignedOffset
  const SqlCSTinyint: int := SqlTinyint + SignedOffset
  const SqlCULong: int := SqlCLong + UnsignedOffset
  const SqlCUShort: int := SqlCShort + UnsignedOffset
  const SqlCUTinyint: int := SqlTinyint + UnsignedOffset
  const SqlCSBigint: int := SqlBigint + SignedOffset
  const SqlCUBigint: int := SqlBigint + UnsignedOffset
  /** The "use the column's own type" marker an application binds with. */
  const SqlCDefault: int := 99

  /** The environment attribute value selecting ODBC 3 behaviour. */
  const SqlOvOdbc3: int := 3

  /** The sizes of the C types the ODBC headers define, on an LP64 platform. */
  const SizeofSqlInteger: nat := 4
  const SizeofFloat: nat := 4
  const SizeofDouble: nat := 8
  const SizeofLongLong: nat := 8
  const SizeofDateStruct: nat := 6
  const SizeofTimeStruct: nat := 6
  const SizeofTimestampStruct: nat := 16

  /** `INT_MAX32`. */
  const IntMax32: nat := 0x7FFF_FFFF
  /** One past the largest `unsigned long` on an LP64 platform. */
  const ULongModulus: nat := 0x1_0000_0000_0000_0000
}
