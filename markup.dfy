/** The page dialect: `<h1>` month, `<h2>w/e D/M</h2>` week ending, `<h3>` display name, and
    the blocks the engine writes. */
module Markup {

  function MonthHeading(month: string): string {
    "<h1>" + month + "</h1>"
  }

  function WeekHeading(date: string): string {
    "<h2>w/e " + date + "</h2>"
  }

  function UserHeading(name: string): string {
    "<h3>" + name + "</h3>"
  }

  /** The section `add_content_to_sections` creates for a month the page does not have. */
  function NewMonthBlock(month: string, date: string, name: string, content: string): string {
    "\n" + MonthHeading(month) + "\n" + WeekHeading(date) + "\n" + UserHeading(name) + "\n" + content + "\n"
  }

  /** The block `_add_new_week` inserts. */
  function NewWeekBlock(date: string, name: string, content: string): string {
    "\n" + WeekHeading(date) + "\n" + UserHeading(name) + "\n" + content + "\n"
  }

  /** What `_add_to_existing_week` inserts right after the week heading. */
  function UserBlock(name: string, content: string): string {
    "\n" + UserHeading(name) + "\n" + content
  }
}
