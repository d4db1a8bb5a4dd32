/** The exception kinds of the model package, one constructor per exception class
    declared in ModelExceptions.java. */
module Errors {

  datatype Error =
    | EmailExists
    | PhoneExists
    | NegativeCredits
    | NegativeAmount
    | NegativeCost
    | InvalidEndDate
    | IdExists
    | InvalidEmailFormat
    | InvalidPhoneNumber
    | ItemNotFound
    | BorrowerNotFound
}
