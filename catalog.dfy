/**
 * The question catalog shared by the board and the editor: categories, each
 * holding its point-valued questions in display order. Ids are opaque strings.
 */
module Catalog {

  datatype Question = Question(id: string, points: int, question: string, answer: string, isAnswered: bool)

  datatype Category = Category(id: string, name: string, questions: seq<Question>)
}
