/** The ASTNodeType values that the modelled code tests (include/ast-node-type.h); the numbers are part of the cache format. */
module NodeTypes {
  import opened Ast

  const ARROW_FUNCTION: U16 := 17
  const ASSIGNMENT: U16 := 18
  const BLOCK: U16 := 22
  const CALL: U16 := 23
  const CALL_EXPRESSION: U16 := 24
  const CLASS_DECLARATION: U16 := 26
  const CLASS_DEFINITION: U16 := 27
  const CLASS_SPECIFIER: U16 := 31
  const CLOSURE_EXPRESSION: U16 := 33
  const COMPILATION_UNIT: U16 := 34
  const COMPOUND_STATEMENT: U16 := 35
  const CONSTRUCTOR_DECLARATION: U16 := 39
  const DECLARATION: U16 := 43
  const DESTRUCTOR_DECLARATION: U16 := 46
  const ENUM_DECLARATION: U16 := 50
  const ENUM_ITEM: U16 := 51
  const ENUM_SPECIFIER: U16 := 54
  const FIELD_DECLARATION: U16 := 59
  const FIELD_DECLARATION_LIST: U16 := 60
  const FIELD_EXPRESSION: U16 := 62
  const FIELD_IDENTIFIER: U16 := 63
  const FUNC_DECLARATION: U16 := 65
  const FUNC_LITERAL: U16 := 66
  const FUNCTION_DECLARATION: U16 := 67
  const FUNCTION_DECLARATION_STATEMENT: U16 := 68
  const FUNCTION_DECLARATOR: U16 := 69
  const FUNCTION_DEFINITION: U16 := 70
  const FUNCTION_EXPRESSION: U16 := 71
  const FUNCTION_ITEM: U16 := 72
  const GENERIC_FUNCTION: U16 := 77
  const IDENTIFIER: U16 := 83
  const IMPL_ITEM: U16 := 84
  const LAMBDA_EXPRESSION: U16 := 98
  const MEMBER_EXPRESSION: U16 := 101
  const METHOD_DECLARATION: U16 := 103
  const METHOD_DEFINITION: U16 := 104
  const METHOD_INVOCATION: U16 := 106
  const MOD_ITEM: U16 := 108
  const MODULE: U16 := 111
  const MODULE_DECLARATION: U16 := 112
  const NAMESPACE_DECLARATION: U16 := 113
  const NAMESPACE_DEFINITION: U16 := 114
  const NAMESPACE_IDENTIFIER: U16 := 115
  const PACKAGE_CLAUSE: U16 := 122
  const PACKAGE_DECLARATION: U16 := 123
  const PARAMETER_DECLARATION: U16 := 127
  const PROGRAM: U16 := 137
  const PROPERTY_IDENTIFIER: U16 := 139
  const QUALIFIED_IDENTIFIER: U16 := 143
  const SCOPED_IDENTIFIER: U16 := 150
  const SOURCE_FILE: U16 := 156
  const STATEMENT_BLOCK: U16 := 158
  const STRUCT_DECLARATION: U16 := 163
  const STRUCT_ITEM: U16 := 165
  const STRUCT_SPECIFIER: U16 := 166
  const STRUCT_TYPE: U16 := 167
  const TEMPLATE_FUNCTION: U16 := 170
  const TRAIT_ITEM: U16 := 173
  const TRANSLATION_UNIT: U16 := 174
  const TYPE_IDENTIFIER: U16 := 178
  const UNION_SPECIFIER: U16 := 182
}
